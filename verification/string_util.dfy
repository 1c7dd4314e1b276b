/** The general string functions of the packaged `StringUtil` class: escape
    expansion, left/right trimming, Python-style slicing and the word extractor used
    to name saved files.  `ltrim`, `rtrim` and both `slice` overloads are the same in
    the older, unpackaged copy of the class; `LegacyStringUtil` holds what differs. */
module StringUtil {
  import opened Wrappers
  import Text
  import Chars
  import Decimal

  // ---------------------------------------------------------------------------
  // Escape expansion
  // ---------------------------------------------------------------------------

  /** `replaceSpecialChars`: the two-character escapes `\n`, `\t` and `\r` become the
      platform line separator, a tab and a carriage return, in that order of passes. */
  function ReplaceSpecialChars(s: string, lineSeparator: string): string
  {
    var s1 := Text.Replace(s, "\\n", lineSeparator);
    var s2 := Text.Replace(s1, "\\t", "\t");
    Text.Replace(s2, "\\r", "\r")
  }

  /** A text without backslashes is not touched. */
  lemma ReplaceSpecialCharsNoBackslash(s: string, lineSeparator: string)
    requires '\\' !in s
    ensures ReplaceSpecialChars(s, lineSeparator) == s
  {
    NoFirstCharNoOccurrence(s, "\\n");
    NoFirstCharNoOccurrence(s, "\\t");
    NoFirstCharNoOccurrence(s, "\\r");
    Text.ReplaceAbsent(s, "\\n", lineSeparator);
    Text.ReplaceAbsent(s, "\\t", "\t");
    Text.ReplaceAbsent(s, "\\r", "\r");
  }

  /** A two-character escape: a backslash and one other character. */
  predicate IsEscape(e: string)
  {
    |e| == 2 && e[0] == '\\' && e[1] != '\\'
  }

  predicate BackslashFree(parts: seq<string>)
  {
    forall k :: 0 <= k < |parts| ==> '\\' !in parts[k]
  }

  /** Backslash-free pieces separated by `\n` escapes come out separated by the line
      separator. */
  lemma ExpandsNewlineEscape(parts: seq<string>, lineSeparator: string)
    requires BackslashFree(parts)
    requires '\\' !in lineSeparator
    ensures ReplaceSpecialChars(Text.Join(parts, "\\n"), lineSeparator) == Text.Join(parts, lineSeparator)
  {
    var j := Text.Join(parts, lineSeparator);
    ReplaceInJoin(parts, "\\n", "\\n", lineSeparator);
    assert Text.Replace(Text.Join(parts, "\\n"), "\\n", lineSeparator) == j;
    JoinKeepsCharOut(parts, lineSeparator, '\\');
    NoFirstCharNoOccurrence(j, "\\t");
    Text.ReplaceAbsent(j, "\\t", "\t");
    NoFirstCharNoOccurrence(j, "\\r");
    Text.ReplaceAbsent(j, "\\r", "\r");
  }

  /** Backslash-free pieces separated by `\t` escapes come out separated by tabs. */
  lemma ExpandsTabEscape(parts: seq<string>, lineSeparator: string)
    requires BackslashFree(parts)
    ensures ReplaceSpecialChars(Text.Join(parts, "\\t"), lineSeparator) == Text.Join(parts, "\t")
  {
    var j := Text.Join(parts, "\\t");
    ReplaceInJoin(parts, "\\t", "\\n", lineSeparator);
    assert Text.Replace(j, "\\n", lineSeparator) == j;
    ReplaceInJoin(parts, "\\t", "\\t", "\t");
    var j' := Text.Join(parts, "\t");
    assert Text.Replace(j, "\\t", "\t") == j';
    JoinKeepsCharOut(parts, "\t", '\\');
    NoFirstCharNoOccurrence(j', "\\r");
    Text.ReplaceAbsent(j', "\\r", "\r");
  }

  /** Backslash-free pieces separated by `\r` escapes come out separated by carriage
      returns. */
  lemma ExpandsReturnEscape(parts: seq<string>, lineSeparator: string)
    requires BackslashFree(parts)
    ensures ReplaceSpecialChars(Text.Join(parts, "\\r"), lineSeparator) == Text.Join(parts, "\r")
  {
    var j := Text.Join(parts, "\\r");
    ReplaceInJoin(parts, "\\r", "\\n", lineSeparator);
    assert Text.Replace(j, "\\n", lineSeparator) == j;
    ReplaceInJoin(parts, "\\r", "\\t", "\t");
    assert Text.Replace(j, "\\t", "\t") == j;
    ReplaceInJoin(parts, "\\r", "\\r", "\r");
  }

  /** Pieces with one separator between each neighbouring pair; the separators may
      differ from joint to joint. */
  function Interleave(parts: seq<string>, seps: seq<string>): string
    requires |parts| == |seps| + 1
    decreases |seps|
  {
    if |seps| == 0 then parts[0] else parts[0] + seps[0] + Interleave(parts[1..], seps[1..])
  }

  /** What one escape stands for on its own: `\n` the line separator, `\t` a tab,
      `\r` a carriage return; anything else stands for itself. */
  function Expansion(e: string, lineSeparator: string): string
  {
    if e == "\\n" then lineSeparator
    else if e == "\\t" then "\t"
    else if e == "\\r" then "\r"
    else e
  }

  /** Every joint expanded on its own. */
  function ExpandAll(escapes: seq<string>, lineSeparator: string): (r: seq<string>)
    ensures |r| == |escapes|
    ensures forall k :: 0 <= k < |r| ==> r[k] == Expansion(escapes[k], lineSeparator)
  {
    seq(|escapes|, k requires 0 <= k < |escapes| => Expansion(escapes[k], lineSeparator))
  }

  /** The three escapes `replaceSpecialChars` knows. */
  predicate IsKnownEscape(e: string)
  {
    e == "\\n" || e == "\\t" || e == "\\r"
  }

  /** Backslash-free pieces joined by any mix of `\n`, `\t` and `\r` escapes come
      out with every joint expanded on its own: the three passes do not interfere,
      as long as the line separator holds no backslash. */
  lemma ExpandsMixedEscapes(parts: seq<string>, escapes: seq<string>, lineSeparator: string)
    requires BackslashFree(parts)
    requires |parts| == |escapes| + 1
    requires forall k :: 0 <= k < |escapes| ==> IsKnownEscape(escapes[k])
    requires '\\' !in lineSeparator
    ensures ReplaceSpecialChars(Interleave(parts, escapes), lineSeparator)
            == Interleave(parts, ExpandAll(escapes, lineSeparator))
  {
    var s1 := ReplaceJoints(escapes, "\\n", lineSeparator);
    var s2 := ReplaceJoints(s1, "\\t", "\t");
    var s3 := ReplaceJoints(s2, "\\r", "\r");
    forall k | 0 <= k < |escapes|
      ensures EscapeOrPlain(s1[k]) && EscapeOrPlain(s2[k])
      ensures s3[k] == Expansion(escapes[k], lineSeparator)
    {
      ExpandOneJoint(escapes[k], lineSeparator);
    }
    ReplaceInInterleave(parts, escapes, "\\n", lineSeparator);
    ReplaceInInterleave(parts, s1, "\\t", "\t");
    ReplaceInInterleave(parts, s2, "\\r", "\r");
    assert s3 == ExpandAll(escapes, lineSeparator);
  }

  /** One known escape through the three passes: after each pass the joint is still
      an escape or free of backslashes, and at the end it is its own expansion. */
  lemma ExpandOneJoint(e: string, lineSeparator: string)
    requires IsKnownEscape(e)
    requires '\\' !in lineSeparator
    ensures var e1 := if e == "\\n" then lineSeparator else e;
      var e2 := if e1 == "\\t" then "\t" else e1;
      && EscapeOrPlain(e1) && EscapeOrPlain(e2)
      && (if e2 == "\\r" then "\r" else e2) == Expansion(e, lineSeparator)
  {
    if e == "\\n" {
      assert lineSeparator != "\\t" && lineSeparator != "\\r" by {
        if |lineSeparator| == 2 {
          assert lineSeparator[0] in lineSeparator;
        }
      }
    }
  }

  /** `replaceSpecialChars` on a `\n` escape followed at once by a `\t` escape, with
      backslash-free text around them, on a platform whose line separator is CR LF:
      the `\n` becomes the two-character separator and the `\t` a tab. */
  lemma ReplaceSpecialCharsMixedExample(a: string, b: string)
    requires '\\' !in a && '\\' !in b
    ensures ReplaceSpecialChars(a + "\\n\\t" + b, "\r\n") == a + "\r\n\t" + b
  {
    var parts := [a, "", b];
    var escapes := ["\\n", "\\t"];
    assert Interleave(parts[1..], escapes[1..]) == "\\t" + b;
    assert Interleave(parts, escapes) == a + "\\n" + ("\\t" + b);
    assert "\\n" + "\\t" == "\\n\\t";
    Regroup(a, "\\n", "\\t", b);
    ExpandsMixedEscapes(parts, escapes, "\r\n");
    var expanded := ExpandAll(escapes, "\r\n");
    assert expanded == ["\r\n", "\t"];
    assert Interleave(parts[1..], expanded[1..]) == "\t" + b;
    assert Interleave(parts, expanded) == a + "\r\n" + ("\t" + b);
    assert "\r\n" + "\t" == "\r\n\t";
    Regroup(a, "\r\n", "\t", b);
  }

  /** Two neighbouring pieces of a concatenation taken together. */
  lemma Regroup(a: string, x: string, y: string, b: string)
    ensures a + x + (y + b) == a + (x + y) + b
  {
  }

  /** The joints after one `replace` pass: those equal to the target are replaced. */
  function ReplaceJoints(seps: seq<string>, target: string, replacement: string): (r: seq<string>)
    ensures |r| == |seps|
    ensures forall k :: 0 <= k < |r| ==> r[k] == if seps[k] == target then replacement else seps[k]
  {
    seq(|seps|, k requires 0 <= k < |seps| => if seps[k] == target then replacement else seps[k])
  }

  /** A joint is an escape or a backslash-free text. */
  predicate EscapeOrPlain(e: string)
  {
    IsEscape(e) || '\\' !in e
  }

  /** One `replace` pass over backslash-free pieces with escape or backslash-free
      joints replaces exactly the joints equal to the target. */
  lemma {:induction false} ReplaceInInterleave(parts: seq<string>, seps: seq<string>, target: string, replacement: string)
    requires IsEscape(target)
    requires BackslashFree(parts)
    requires |parts| == |seps| + 1
    requires forall k :: 0 <= k < |seps| ==> EscapeOrPlain(seps[k])
    ensures Text.Replace(Interleave(parts, seps), target, replacement)
            == Interleave(parts, ReplaceJoints(seps, target, replacement))
    decreases |seps|
  {
    var joints := ReplaceJoints(seps, target, replacement);
    if |seps| == 0 {
      NoFirstCharNoOccurrence(parts[0], target);
      Text.ReplaceAbsent(parts[0], target, replacement);
    } else {
      var rest := Interleave(parts[1..], seps[1..]);
      ReplaceInInterleave(parts[1..], seps[1..], target, replacement);
      assert joints[1..] == ReplaceJoints(seps[1..], target, replacement);
      if IsEscape(seps[0]) {
        ReplacePieceThenEscape(parts[0], seps[0], rest, target, replacement);
      } else {
        var front := parts[0] + seps[0];
        assert '\\' !in front;
        assert seps[0] != target by {
          assert target[0] == '\\';
        }
        ReplaceSkipsPiece(front, rest, target, replacement);
        assert parts[0] + seps[0] + rest == front + rest;
      }
    }
  }

  /** A text that lacks the first character of a pattern does not contain it. */
  lemma NoFirstCharNoOccurrence(s: string, pattern: string)
    requires |pattern| > 0 && pattern[0] !in s
    ensures !Text.Occurs(s, pattern)
  {
    forall i: nat
      ensures !Text.OccursAt(s, pattern, i)
    {
      if i + |pattern| <= |s| {
        assert s[i..i + |pattern|][0] == s[i];
      }
    }
  }

  /** A character that is in no piece and not in the separator is not in the join. */
  lemma {:induction false} JoinKeepsCharOut(parts: seq<string>, sep: string, c: char)
    requires forall k :: 0 <= k < |parts| ==> c !in parts[k]
    requires c !in sep
    ensures c !in Text.Join(parts, sep)
  {
    if |parts| > 1 {
      JoinKeepsCharOut(parts[1..], sep, c);
    }
  }

  /** In backslash-free pieces joined by one escape, replacing an escape swaps the
      separator when it is that escape and changes nothing when it is another. */
  lemma {:induction false} ReplaceInJoin(parts: seq<string>, sep: string, target: string, replacement: string)
    requires IsEscape(sep) && IsEscape(target)
    requires BackslashFree(parts)
    ensures Text.Replace(Text.Join(parts, sep), target, replacement)
            == Text.Join(parts, if sep == target then replacement else sep)
  {
    if |parts| == 1 {
      NoFirstCharNoOccurrence(parts[0], target);
      Text.ReplaceAbsent(parts[0], target, replacement);
    } else if |parts| > 1 {
      ReplaceInJoin(parts[1..], sep, target, replacement);
      ReplaceInJoinStep(parts, sep, target, replacement);
    }
  }

  /** The inductive step of `ReplaceInJoin`: the first piece, then the escape. */
  lemma ReplaceInJoinStep(parts: seq<string>, sep: string, target: string, replacement: string)
    requires IsEscape(sep) && IsEscape(target)
    requires |parts| > 1 && '\\' !in parts[0]
    requires Text.Replace(Text.Join(parts[1..], sep), target, replacement)
             == Text.Join(parts[1..], if sep == target then replacement else sep)
    ensures Text.Replace(Text.Join(parts, sep), target, replacement)
            == Text.Join(parts, if sep == target then replacement else sep)
  {
    ReplacePieceThenEscape(parts[0], sep, Text.Join(parts[1..], sep), target, replacement);
  }

  /** `Replace` over a backslash-free piece, an escape and the rest of the text. */
  lemma ReplacePieceThenEscape(piece: string, sep: string, rest: string, target: string, replacement: string)
    requires IsEscape(sep) && IsEscape(target)
    requires '\\' !in piece
    ensures Text.Replace(piece + sep + rest, target, replacement)
            == piece + (if sep == target then replacement else sep) + Text.Replace(rest, target, replacement)
  {
    assert piece + sep + rest == piece + (sep + rest);
    ReplaceSkipsPiece(piece, sep + rest, target, replacement);
    ReplaceAtEscape(sep, rest, target, replacement);
  }

  /** What `Replace` does at an escape standing at the front of the text. */
  lemma ReplaceAtEscape(sep: string, rest: string, target: string, replacement: string)
    requires IsEscape(sep) && IsEscape(target)
    ensures Text.Replace(sep + rest, target, replacement)
            == (if sep == target then replacement else sep) + Text.Replace(rest, target, replacement)
  {
    var tail := sep + rest;
    assert tail[..2] == sep && tail[2..] == rest;
    if sep != target {
      assert tail[1..] == sep[1..] + rest;
      ReplaceSkipsPiece(sep[1..], rest, target, replacement);
      assert sep == [sep[0]] + sep[1..];
    }
  }

  /** `Replace` copies a leading piece that lacks the target's first character. */
  lemma {:induction false} ReplaceSkipsPiece(piece: string, rest: string, target: string, replacement: string)
    requires |target| > 0 && target[0] !in piece
    ensures Text.Replace(piece + rest, target, replacement) == piece + Text.Replace(rest, target, replacement)
    decreases |piece|
  {
    if |piece| == 0 {
      assert piece + rest == rest;
    } else {
      var s := piece + rest;
      var tail := Text.Replace(rest, target, replacement);
      assert s[0] == piece[0] && s[1..] == piece[1..] + rest;
      ReplaceSkipsPiece(piece[1..], rest, target, replacement);
      ReplaceCopiesMismatch(s, target, replacement);
      assert piece == [piece[0]] + piece[1..];
      ConsRegroup(piece[0], piece[1..], tail);
    }
  }

  /** A text whose first character cannot start the target keeps that character. */
  lemma ReplaceCopiesMismatch(s: string, target: string, replacement: string)
    requires |target| > 0 && |s| > 0 && s[0] != target[0]
    ensures Text.Replace(s, target, replacement) == [s[0]] + Text.Replace(s[1..], target, replacement)
  {
    if |target| <= |s| {
      assert s[..|target|][0] != target[0];
    }
  }

  /** Concatenation regrouped after a leading character. */
  lemma ConsRegroup(c: char, a: string, b: string)
    ensures [c] + (a + b) == ([c] + a) + b
  {
  }

  // ---------------------------------------------------------------------------
  // Trimming
  // ---------------------------------------------------------------------------

  /** The text with its leading run of `p`-characters removed. */
  function StripLeading(s: string, p: char -> bool): (r: string)
    ensures |r| <= |s| && r == s[|s| - |r|..]
    ensures forall i :: 0 <= i < |s| - |r| ==> p(s[i])
    ensures r == [] || !p(r[0])
    decreases |s|
  {
    if |s| > 0 && p(s[0]) then StripLeading(s[1..], p) else s
  }

  /** The text with its trailing run of `p`-characters removed. */
  function StripTrailing(s: string, p: char -> bool): (r: string)
    ensures |r| <= |s| && r == s[..|r|]
    ensures forall i :: |r| <= i < |s| ==> p(s[i])
    ensures r == [] || !p(r[|r| - 1])
    decreases |s|
  {
    if |s| > 0 && p(s[|s| - 1]) then StripTrailing(s[..|s| - 1], p) else s
  }

  /** Right-stripping a text whose first character stays keeps something. */
  lemma StripTrailingKeepsFirst(s: string, p: char -> bool)
    requires s != [] && !p(s[0])
    ensures StripTrailing(s, p) != []
  {
  }

  /** `ltrim`: skip leading `Character.isWhitespace` characters with an index and
      return the rest. */
  method LTrim(s: string) returns (r: string)
    ensures r == StripLeading(s, Chars.IsWhitespace)
    ensures r == s[|s| - |r|..]
    ensures r == [] || !Chars.IsWhitespace(r[0])
  {
    var i := 0;
    while i < |s| && Chars.IsWhitespace(s[i])
      invariant 0 <= i <= |s|
      invariant StripLeading(s[i..], Chars.IsWhitespace) == StripLeading(s, Chars.IsWhitespace)
    {
      assert s[i..][1..] == s[i + 1..];
      i := i + 1;
    }
    r := s[i..];
  }

  /** `rtrim`: walk an index down from the last character over whitespace and return
      the text up to it. */
  method RTrim(s: string) returns (r: string)
    ensures r == StripTrailing(s, Chars.IsWhitespace)
    ensures r == s[..|r|]
    ensures r == [] || !Chars.IsWhitespace(r[|r| - 1])
  {
    var i := |s| - 1;
    assert s[..i + 1] == s;
    while i >= 0 && Chars.IsWhitespace(s[i])
      invariant -1 <= i < |s|
      invariant StripTrailing(s[..i + 1], Chars.IsWhitespace) == StripTrailing(s, Chars.IsWhitespace)
    {
      assert s[..i + 1][..i] == s[..i];
      assert StripTrailing(s[..i + 1], Chars.IsWhitespace) == StripTrailing(s[..i], Chars.IsWhitespace);
      i := i - 1;
    }
    r := s[..i + 1];
    assert r == [] || !Chars.IsWhitespace(r[|r| - 1]);
  }

  /** Trimming twice trims no more than trimming once, on either side. */
  lemma TrimIdempotent(s: string)
    ensures StripLeading(StripLeading(s, Chars.IsWhitespace), Chars.IsWhitespace)
            == StripLeading(s, Chars.IsWhitespace)
    ensures StripTrailing(StripTrailing(s, Chars.IsWhitespace), Chars.IsWhitespace)
            == StripTrailing(s, Chars.IsWhitespace)
  {
  }

  /** `ltrim` and `rtrim` work on opposite ends: each leaves the other end alone. */
  lemma {:induction false} TrimsKeepOtherEnd(s: string)
    ensures StripLeading(StripTrailing(s, Chars.IsWhitespace), Chars.IsWhitespace)
            == StripTrailing(StripLeading(s, Chars.IsWhitespace), Chars.IsWhitespace)
    decreases |s|
  {
    var l := StripLeading(s, Chars.IsWhitespace);
    if |s| > 0 && Chars.IsWhitespace(s[0]) {
      TrimsKeepOtherEnd(s[1..]);
      var t := StripTrailing(s, Chars.IsWhitespace);
      if |t| > 0 {
        assert t[0] == s[0];
        StripTrailingOfTail(s);
      } else {
        StripTrailingEmptyTail(s);
      }
    } else {
      var t := StripTrailing(s, Chars.IsWhitespace);
      if |t| > 0 {
        assert t[0] == s[0];
      }
    }
  }

  /** Cutting a leading character off commutes with right-trimming when something is
      left after the trim. */
  lemma {:induction false} StripTrailingOfTail(s: string)
    requires |s| > 0
    requires |StripTrailing(s, Chars.IsWhitespace)| > 0
    ensures StripTrailing(s[1..], Chars.IsWhitespace) == StripTrailing(s, Chars.IsWhitespace)[1..]
    decreases |s|
  {
    if Chars.IsWhitespace(s[|s| - 1]) {
      assert s[..|s| - 1][1..] == s[1..][..|s| - 2];
      StripTrailingOfTail(s[..|s| - 1]);
    }
  }

  /** When right-trimming empties the text it also empties the text's tail. */
  lemma StripTrailingEmptyTail(s: string)
    requires |s| > 0
    requires StripTrailing(s, Chars.IsWhitespace) == []
    ensures StripTrailing(s[1..], Chars.IsWhitespace) == []
  {
    var t := StripTrailing(s[1..], Chars.IsWhitespace);
    if |t| > 0 {
      assert s[|t|] == t[|t| - 1];
    }
  }

  /** `String.trim()`: strip every character up to U+0020 from both ends.  Not the
      same character class as `ltrim`/`rtrim`. */
  function JavaTrim(s: string): (r: string)
    ensures r == [] || (!Chars.IsTrimmable(r[0]) && !Chars.IsTrimmable(r[|r| - 1]))
    ensures exists a, b {:trigger s[a..b]} :: && 0 <= a <= b <= |s| && r == s[a..b]
                                              && (forall i :: 0 <= i < a ==> Chars.IsTrimmable(s[i]))
                                              && (forall i :: b <= i < |s| ==> Chars.IsTrimmable(s[i]))
  {
    var l := StripLeading(s, Chars.IsTrimmable);
    var r := StripTrailing(l, Chars.IsTrimmable);
    TrimIsCentralSlice(s, l, r);
    r
  }

  /** A prefix of a suffix is a contiguous slice; when only trimmable characters
      were cut from either side, it is the slice `trim()` leaves. */
  lemma TrimIsCentralSlice(s: string, l: string, r: string)
    requires |l| <= |s| && l == s[|s| - |l|..]
    requires forall i :: 0 <= i < |s| - |l| ==> Chars.IsTrimmable(s[i])
    requires |r| <= |l| && r == l[..|r|]
    requires forall i :: |r| <= i < |l| ==> Chars.IsTrimmable(l[i])
    ensures exists a, b {:trigger s[a..b]} :: && 0 <= a <= b <= |s| && r == s[a..b]
                                              && (forall i :: 0 <= i < a ==> Chars.IsTrimmable(s[i]))
                                              && (forall i :: b <= i < |s| ==> Chars.IsTrimmable(s[i]))
  {
    var a := |s| - |l|;
    assert r == s[a..a + |r|];
    forall i | a + |r| <= i < |s|
      ensures Chars.IsTrimmable(s[i])
    {
      assert s[i] == l[i - a];
    }
  }

  // ---------------------------------------------------------------------------
  // Slicing
  // ---------------------------------------------------------------------------

  /** Python's reading of a slice bound against a sequence of length `n`: negative
      bounds count from the end, and anything out of range is clamped. */
  function PythonBound(i: int, n: nat): (b: nat)
    ensures b <= n
  {
    if i < 0 then (if i + n < 0 then 0 else i + n)
    else if i > n then n
    else i
  }

  /** Python's `s[start:end]`, which never fails. */
  function PythonSlice(s: string, start: int, end: int): (r: string)
  {
    var lo := PythonBound(start, |s|);
    var hi := PythonBound(end, |s|);
    if lo < hi then s[lo..hi] else ""
  }

  /** commons-lang `StringUtils.substring(s, start, end)`: shift negative bounds by the
      length, cap the end at the length, give up with `""` if the start is past the
      end, and only then clamp both bounds at zero.  It agrees with Python slicing on
      every pair of bounds. */
  function Substring(s: string, start: int, end: int): (r: string)
    ensures r == PythonSlice(s, start, end)
    ensures |r| <= |s|
  {
    var e := if end < 0 then end + |s| else end;
    var b := if start < 0 then start + |s| else start;
    var e' := if e > |s| then |s| else e;
    if b > e' then ""
    else
      var b'' := if b < 0 then 0 else b;
      var e'' := if e' < 0 then 0 else e';
      s[b''..e'']
  }

  /** `slice(s, i)`: the one character at `i` (from the end when `i` is negative).
      The end bound is `i + 1` in 32-bit arithmetic, and an end of 0 (that is, `i` is
      -1) means "to the end of the text". */
  function SliceAt(s: string, i: int): (r: string)
    requires Decimal.IsInt32(i)
    requires |s| <= Decimal.INT_MAX
    ensures -|s| <= i < |s| ==> r == [s[if i < 0 then i + |s| else i]]
    ensures !(-|s| <= i < |s|) ==> r == ""
  {
    var end := if i == Decimal.INT_MAX then Decimal.INT_MIN else i + 1;
    var end' := if end == 0 then |s| else end;
    Substring(s, i, end')
  }

  /** `slice(s, start, end)`: a missing start means 0 and a missing end means the
      length of the text; then Python slicing. */
  function SliceRange(s: string, start: Option<int>, end: Option<int>): (r: string)
    ensures r == PythonSlice(s, start.GetOr(0), end.GetOr(|s|))
    ensures start.None? && end.None? ==> r == s
    ensures PythonBound(start.GetOr(0), |s|) >= PythonBound(end.GetOr(|s|), |s|) ==> r == ""
    ensures exists lo: nat, hi: nat {:trigger s[lo..hi]} :: lo <= hi <= |s| && r == s[lo..hi]
  {
    var b := if start.None? then 0 else start.value;
    var e := if end.None? then |s| else end.value;
    var r := Substring(s, b, e);
    assert r == s[PythonBound(b, |s|)..PythonBound(b, |s|) + |r|];
    r
  }

  // ---------------------------------------------------------------------------
  // Word extraction
  // ---------------------------------------------------------------------------

  /** Length of the leading run of non-whitespace characters. */
  function WordLength(s: string): (k: nat)
    ensures k <= |s|
    ensures forall i :: 0 <= i < k ==> !Chars.IsWhitespace(s[i])
    ensures k < |s| ==> Chars.IsWhitespace(s[k])
    decreases |s|
  {
    if |s| == 0 || Chars.IsWhitespace(s[0]) then 0 else 1 + WordLength(s[1..])
  }

  /** `StringUtils.split(s)`: the maximal runs of non-whitespace characters, in order;
      runs of whitespace count as one delimiter and produce no empty tokens. */
  function Words(s: string): (ws: seq<string>)
    ensures forall k :: 0 <= k < |ws| ==> IsWord(ws[k])
    decreases |s|
  {
    if |s| == 0 then []
    else if Chars.IsWhitespace(s[0]) then Words(s[1..])
    else
      var k := WordLength(s);
      [s[..k]] + Words(s[k..])
  }

  /** A token `Words` can produce: non-empty, without whitespace. */
  predicate IsWord(w: string)
  {
    |w| > 0 && forall i :: 0 <= i < |w| ==> !Chars.IsWhitespace(w[i])
  }

  /** The characters `[a-zA-Z0-9 ]` admits are kept, every other one becomes a space. */
  function KeepWordChars(s: string): (r: string)
    ensures |r| == |s|
    ensures forall i :: 0 <= i < |r| ==> (Chars.IsWordChar(r[i]) || r[i] == ' ')
    ensures forall i :: 0 <= i < |r| && (Chars.IsWordChar(s[i]) || s[i] == ' ') ==> r[i] == s[i]
  {
    seq(|s|, i requires 0 <= i < |s| => if Chars.IsWordChar(s[i]) || s[i] == ' ' then s[i] else ' ')
  }

  /** At most 100 characters of the clip take part in naming a file. */
  const NAMING_PREFIX_LENGTH: nat := 100

  /** The text the words are taken from: the first 100 characters, cleaned and
      trimmed. */
  function NamingSource(s: string): (r: string)
    ensures forall i :: 0 <= i < |r| ==> (Chars.IsWordChar(r[i]) || r[i] == ' ')
    ensures r == [] || (r[0] != ' ' && r[|r| - 1] != ' ')
    ensures var cleaned := KeepWordChars(s[..if |s| < NAMING_PREFIX_LENGTH then |s| else NAMING_PREFIX_LENGTH]);
      exists a, b {:trigger cleaned[a..b]} :: && 0 <= a <= b <= |cleaned| && r == cleaned[a..b]
                                              && (forall i :: 0 <= i < a ==> cleaned[i] == ' ')
                                              && (forall i :: b <= i < |cleaned| ==> cleaned[i] == ' ')
  {
    var prefix := if |s| < NAMING_PREFIX_LENGTH then s else s[..NAMING_PREFIX_LENGTH];
    assert prefix == s[..if |s| < NAMING_PREFIX_LENGTH then |s| else NAMING_PREFIX_LENGTH];
    TrimCleaned(KeepWordChars(prefix), JavaTrim(KeepWordChars(prefix)));
    JavaTrim(KeepWordChars(prefix))
  }

  /** On a cleaned text the only character `trim()` removes is the space: what
      `JavaTrim` promises of `r` then holds with the space for the `trim()` class. */
  lemma TrimCleaned(cleaned: string, r: string)
    requires forall i :: 0 <= i < |cleaned| ==> (Chars.IsWordChar(cleaned[i]) || cleaned[i] == ' ')
    requires r == [] || (!Chars.IsTrimmable(r[0]) && !Chars.IsTrimmable(r[|r| - 1]))
    requires exists a, b {:trigger cleaned[a..b]} :: && 0 <= a <= b <= |cleaned| && r == cleaned[a..b]
                                                    && (forall i :: 0 <= i < a ==> Chars.IsTrimmable(cleaned[i]))
                                                    && (forall i :: b <= i < |cleaned| ==> Chars.IsTrimmable(cleaned[i]))
    ensures forall i :: 0 <= i < |r| ==> (Chars.IsWordChar(r[i]) || r[i] == ' ')
    ensures r == [] || (r[0] != ' ' && r[|r| - 1] != ' ')
    ensures exists a, b {:trigger cleaned[a..b]} :: && 0 <= a <= b <= |cleaned| && r == cleaned[a..b]
                                                   && (forall i :: 0 <= i < a ==> cleaned[i] == ' ')
                                                   && (forall i :: b <= i < |cleaned| ==> cleaned[i] == ' ')
  {
    var a, b :| && 0 <= a <= b <= |cleaned| && r == cleaned[a..b]
               && (forall i :: 0 <= i < a ==> Chars.IsTrimmable(cleaned[i]))
               && (forall i :: b <= i < |cleaned| ==> Chars.IsTrimmable(cleaned[i]));
    forall i | 0 <= i < |r|
      ensures Chars.IsWordChar(r[i]) || r[i] == ' '
    {
      assert r[i] == cleaned[a + i];
    }
    forall i | 0 <= i < |cleaned| && Chars.IsTrimmable(cleaned[i])
      ensures cleaned[i] == ' '
    {
      if cleaned[i] != ' ' {
        WordCharNotTrimmable(cleaned[i]);
      }
    }
  }

  /** `[a-zA-Z0-9]` lies above U+0020. */
  lemma WordCharNotTrimmable(c: char)
    requires Chars.IsWordChar(c)
    ensures !Chars.IsTrimmable(c)
  {
  }

  /** `extractInitialWords(s, wordCount)`: the first `wordCount` words of the cleaned
      prefix, joined by single spaces. */
  function ExtractInitialWords(s: string, wordCount: nat): (r: string)
    ensures forall i :: 0 <= i < |r| ==> (Chars.IsWordChar(r[i]) || r[i] == ' ')
    ensures r != "" ==> r[0] != ' ' && r[|r| - 1] != ' '
    ensures forall i :: 0 <= i < |r| - 1 && r[i] == ' ' ==> r[i + 1] != ' '
    ensures Words(r) == TakeAtMost(Words(NamingSource(s)), wordCount)
    ensures r == "" <==> wordCount == 0 || Words(NamingSource(s)) == []
  {
    var src := NamingSource(s);
    var r := Text.Join(TakeAtMost(Words(src), wordCount), " ");
    JoinFirstWords(src, wordCount, r);
    r
  }

  /** What joining the first `n` words of a cleaned text gives. */
  lemma JoinFirstWords(src: string, n: nat, r: string)
    requires forall i :: 0 <= i < |src| ==> (Chars.IsWordChar(src[i]) || src[i] == ' ')
    requires r == Text.Join(TakeAtMost(Words(src), n), " ")
    ensures forall i :: 0 <= i < |r| ==> (Chars.IsWordChar(r[i]) || r[i] == ' ')
    ensures r != "" ==> r[0] != ' ' && r[|r| - 1] != ' '
    ensures forall i :: 0 <= i < |r| - 1 && r[i] == ' ' ==> r[i + 1] != ' '
    ensures Words(r) == TakeAtMost(Words(src), n)
    ensures r == "" <==> n == 0 || Words(src) == []
  {
    var ws := Words(src);
    var taken := TakeAtMost(ws, n);
    WordsUseSourceChars(src);
    JoinWordsShape(taken);
    WordsOfJoin(taken);
    forall i | 0 <= i < |r|
      ensures Chars.IsWordChar(r[i]) || r[i] == ' '
    {
      if r[i] != ' ' {
        var k, j :| 0 <= k < |taken| && 0 <= j < |taken[k]| && r[i] == taken[k][j];
        assert taken[k] == ws[k];
      }
    }
  }

  /** The first `n` elements, or all of them when there are fewer. */
  function TakeAtMost<T>(xs: seq<T>, n: nat): (r: seq<T>)
    ensures |r| == if n < |xs| then n else |xs|
    ensures r == xs[..|r|]
  {
    if n < |xs| then xs[..n] else xs
  }

  /** Every character of every word is a character of the text. */
  lemma {:induction false} WordsUseSourceChars(s: string)
    ensures forall k, i :: 0 <= k < |Words(s)| && 0 <= i < |Words(s)[k]| ==> Words(s)[k][i] in s
    decreases |s|
  {
    if |s| == 0 {
    } else if Chars.IsWhitespace(s[0]) {
      WordsUseSourceChars(s[1..]);
    } else {
      var k := WordLength(s);
      WordsUseSourceChars(s[k..]);
      assert Words(s) == [s[..k]] + Words(s[k..]);
    }
  }

  /** Joining words with single spaces gives a text that neither starts nor ends with
      a space, has no two spaces in a row, and uses only the words' characters. */
  lemma {:induction false} JoinWordsShape(ws: seq<string>)
    requires forall k :: 0 <= k < |ws| ==> IsWord(ws[k])
    ensures var r := Text.Join(ws, " ");
      && (r != "" ==> !Chars.IsWhitespace(r[0]) && !Chars.IsWhitespace(r[|r| - 1]))
      && (forall i :: 0 <= i < |r| - 1 && Chars.IsWhitespace(r[i]) ==> !Chars.IsWhitespace(r[i + 1]))
      && (forall i :: 0 <= i < |r| ==> r[i] == ' ' || exists k, j :: 0 <= k < |ws| && 0 <= j < |ws[k]| && r[i] == ws[k][j])
      && (r == "" <==> ws == [])
  {
    if |ws| > 1 {
      JoinWordsShape(ws[1..]);
      var rest := Text.Join(ws[1..], " ");
      var r := ws[0] + " " + rest;
      assert Text.Join(ws, " ") == r;
      forall i | 0 <= i < |r|
        ensures r[i] == ' ' || exists k, j :: 0 <= k < |ws| && 0 <= j < |ws[k]| && r[i] == ws[k][j]
      {
        if i < |ws[0]| {
          assert r[i] == ws[0][i];
        } else if i > |ws[0]| {
          var i' := i - |ws[0]| - 1;
          assert r[i] == rest[i'];
          if rest[i'] != ' ' {
            var k, j :| 0 <= k < |ws[1..]| && 0 <= j < |ws[1..][k]| && rest[i'] == ws[1..][k][j];
            assert r[i] == ws[k + 1][j];
          }
        }
      }
    }
  }

  /** Splitting words joined by single spaces gives the words back. */
  lemma {:induction false} WordsOfJoin(ws: seq<string>)
    requires forall k :: 0 <= k < |ws| ==> IsWord(ws[k])
    ensures Words(Text.Join(ws, " ")) == ws
  {
    if |ws| == 1 {
      WordsOfWord(ws[0], "");
      assert ws[0] + "" == ws[0];
    } else if |ws| > 1 {
      var rest := Text.Join(ws[1..], " ");
      var t := " " + rest;
      JoinSpaced(ws);
      WordsOfJoin(ws[1..]);
      assert Chars.IsWhitespace(t[0]) && t[1..] == rest;
      WordsSkipWhitespace(t);
      WordsOfWord(ws[0], t);
      assert ws == [ws[0]] + ws[1..];
    }
  }

  /** A join of two or more words is the first word, a space and the join of the rest. */
  lemma JoinSpaced(ws: seq<string>)
    requires |ws| > 1
    ensures Text.Join(ws, " ") == ws[0] + (" " + Text.Join(ws[1..], " "))
  {
  }

  /** Leading whitespace yields no word. */
  lemma WordsSkipWhitespace(t: string)
    requires |t| > 0 && Chars.IsWhitespace(t[0])
    ensures Words(t) == Words(t[1..])
  {
  }

  /** A word followed by nothing or by whitespace is split off as the first token. */
  lemma WordsOfWord(w: string, rest: string)
    requires IsWord(w)
    requires rest == "" || Chars.IsWhitespace(rest[0])
    ensures Words(w + rest) == [w] + Words(rest)
  {
    var s := w + rest;
    WordLengthOf(w, rest);
    assert s[..|w|] == w;
    assert s[|w|..] == rest;
  }

  lemma {:induction false} WordLengthOf(w: string, rest: string)
    requires forall i :: 0 <= i < |w| ==> !Chars.IsWhitespace(w[i])
    requires rest == "" || Chars.IsWhitespace(rest[0])
    ensures WordLength(w + rest) == |w|
    decreases |w|
  {
    if |w| > 0 {
      assert (w + rest)[1..] == w[1..] + rest;
      WordLengthOf(w[1..], rest);
    }
  }

  /** Only the first 100 characters matter. */
  lemma ExtractInitialWordsReadsPrefix(s: string, t: string, wordCount: nat)
    requires |s| >= NAMING_PREFIX_LENGTH && |t| >= NAMING_PREFIX_LENGTH
    requires s[..NAMING_PREFIX_LENGTH] == t[..NAMING_PREFIX_LENGTH]
    ensures ExtractInitialWords(s, wordCount) == ExtractInitialWords(t, wordCount)
  {
  }
}
