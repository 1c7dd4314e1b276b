/** The string primitives the system borrows from the JDK and from commons-lang:
    exact splitting on a separator (keeping empty tokens), joining, `String.replace`
    and `StringUtils.countMatches`. All scans are leftmost and non-overlapping. */
module Text {

  /** `sep` occurs in `s` starting at position `i`. */
  predicate OccursAt(s: string, sep: string, i: nat)
  {
    i + |sep| <= |s| && s[i..i + |sep|] == sep
  }

  /** `sep` occurs somewhere in `s`. */
  ghost predicate Occurs(s: string, sep: string)
  {
    exists i: nat :: OccursAt(s, sep, i)
  }

  /** Exact split on a non-empty separator, keeping empty tokens.  The text is scanned
      left to right; wherever `sep` starts, the current token ends.  Never empty:
      splitting `""` gives `[""]`. */
  function Split(s: string, sep: string): (parts: seq<string>)
    requires |sep| > 0
    ensures |parts| > 0
    decreases |s|
  {
    if |sep| <= |s| && s[..|sep|] == sep then
      [""] + Split(s[|sep|..], sep)
    else if |s| == 0 then
      [""]
    else
      var rest := Split(s[1..], sep);
      [[s[0]] + rest[0]] + rest[1..]
  }

  /** `String.join(sep, parts)`: the parts with `sep` between neighbours. */
  function Join(parts: seq<string>, sep: string): string
  {
    if |parts| == 0 then ""
    else if |parts| == 1 then parts[0]
    else parts[0] + sep + Join(parts[1..], sep)
  }

  /** `StringUtils.splitByWholeSeparatorPreserveAllTokens(s, sep)`: the empty text
      gives no tokens at all, any other text its exact split. */
  function SplitPreserveAllTokens(s: string, sep: string): (parts: seq<string>)
    requires |sep| > 0
    ensures |parts| == 0 <==> s == ""
  {
    if s == "" then [] else Split(s, sep)
  }

  /** `s.replace(target, replacement)` for a non-empty target: every leftmost,
      non-overlapping occurrence of `target` is replaced. */
  function Replace(s: string, target: string, replacement: string): string
    requires |target| > 0
    decreases |s|
  {
    if |target| <= |s| && s[..|target|] == target then
      replacement + Replace(s[|target|..], target, replacement)
    else if |s| == 0 then
      ""
    else
      [s[0]] + Replace(s[1..], target, replacement)
  }

  /** `StringUtils.countMatches(s, sub)`: the number of non-overlapping occurrences,
      counted from the left. */
  function CountMatches(s: string, sub: string): nat
    requires |sub| > 0
    decreases |s|
  {
    if |sub| <= |s| && s[..|sub|] == sub then
      1 + CountMatches(s[|sub|..], sub)
    else if |s| == 0 then
      0
    else
      CountMatches(s[1..], sub)
  }

  // ---------------------------------------------------------------------------
  // Properties
  // ---------------------------------------------------------------------------

  /** Joining the tokens of a split with the same separator gives the text back. */
  lemma {:induction false} JoinSplit(s: string, sep: string)
    requires |sep| > 0
    ensures Join(Split(s, sep), sep) == s
    decreases |s|
  {
    if |sep| <= |s| && s[..|sep|] == sep {
      JoinSplit(s[|sep|..], sep);
      JoinAfterEmptyToken(Split(s[|sep|..], sep), sep);
      assert s == sep + s[|sep|..];
    } else if |s| > 0 {
      JoinSplit(s[1..], sep);
      JoinExtendFirst(s[0], Split(s[1..], sep), sep);
      assert s == [s[0]] + s[1..];
    }
  }

  /** The same round trip for the commons-lang splitter: `""` goes to `[]` and back. */
  lemma JoinSplitPreserveAllTokens(s: string, sep: string)
    requires |sep| > 0
    ensures Join(SplitPreserveAllTokens(s, sep), sep) == s
  {
    if s != "" {
      JoinSplit(s, sep);
    }
  }

  /** A token produced by `Split` never contains the separator. */
  lemma {:induction false} SplitTokensAreSeparatorFree(s: string, sep: string, k: nat)
    requires |sep| > 0
    requires k < |Split(s, sep)|
    ensures !Occurs(Split(s, sep)[k], sep)
    decreases |s|
  {
    if |sep| <= |s| && s[..|sep|] == sep {
      if k > 0 {
        SplitTokensAreSeparatorFree(s[|sep|..], sep, k - 1);
      }
    } else if |s| > 0 {
      var rest := Split(s[1..], sep);
      SplitTokensAreSeparatorFree(s[1..], sep, k);
      if k == 0 {
        var t := [s[0]] + rest[0];
        FirstTokenIsPrefix(s[1..], sep);
        assert t == s[..|t|];
        assert !OccursAt(s, sep, 0);
        if |sep| <= |t| {
          assert t[..|sep|] == s[..|sep|];
        }
        ConsKeepsAbsent(s[0], rest[0], sep);
      }
    }
  }

  /** A character in front of a text without the separator does not create one,
      unless the separator starts right there. */
  lemma ConsKeepsAbsent(c: char, u: string, sep: string)
    requires !Occurs(u, sep)
    requires !OccursAt([c] + u, sep, 0)
    ensures !Occurs([c] + u, sep)
  {
    var t := [c] + u;
    forall i: nat
      ensures !OccursAt(t, sep, i)
    {
      if i > 0 {
        assert !OccursAt(u, sep, i - 1);
        if i + |sep| <= |t| {
          assert t[i..i + |sep|] == u[i - 1..i - 1 + |sep|];
        }
      }
    }
  }

  /** The first token of a split is a prefix of the text, and when the text goes on
      past it, it goes on with the separator. */
  lemma {:induction false} FirstTokenIsPrefix(s: string, sep: string)
    requires |sep| > 0
    ensures |Split(s, sep)[0]| <= |s|
    ensures s[..|Split(s, sep)[0]|] == Split(s, sep)[0]
    ensures |Split(s, sep)| > 1 ==> OccursAt(s, sep, |Split(s, sep)[0]|)
    decreases |s|
  {
    if |sep| <= |s| && s[..|sep|] == sep {
    } else if |s| == 0 {
    } else {
      FirstTokenIsPrefix(s[1..], sep);
      var rest := Split(s[1..], sep);
      var n := |rest[0]|;
      assert s[..n + 1] == [s[0]] + s[1..][..n];
      if |Split(s, sep)| > 1 {
        assert s[n + 1..n + 1 + |sep|] == s[1..][n..n + |sep|];
      }
    }
  }

  /** `String.replace` is the split on the target joined with the replacement. */
  lemma {:induction false} ReplaceIsJoinOfSplit(s: string, target: string, replacement: string)
    requires |target| > 0
    ensures Replace(s, target, replacement) == Join(Split(s, target), replacement)
    decreases |s|
  {
    if |target| <= |s| && s[..|target|] == target {
      ReplaceIsJoinOfSplit(s[|target|..], target, replacement);
      JoinAfterEmptyToken(Split(s[|target|..], target), replacement);
    } else if |s| > 0 {
      ReplaceIsJoinOfSplit(s[1..], target, replacement);
      JoinExtendFirst(s[0], Split(s[1..], target), replacement);
    }
  }

  /** Joining behind an empty first token puts one separator in front. */
  lemma JoinAfterEmptyToken(rest: seq<string>, sep: string)
    requires |rest| > 0
    ensures Join([""] + rest, sep) == sep + Join(rest, sep)
  {
    assert ([""] + rest)[1..] == rest;
  }

  /** Prepending a character to the first token prepends it to the join. */
  lemma JoinExtendFirst(c: char, rest: seq<string>, sep: string)
    requires |rest| > 0
    ensures Join([[c] + rest[0]] + rest[1..], sep) == [c] + Join(rest, sep)
  {
    var parts := [[c] + rest[0]] + rest[1..];
    if |rest| > 1 {
      assert parts[1..] == rest[1..];
    }
  }

  /** Counting the occurrences is counting the token boundaries of the split. */
  lemma {:induction false} CountMatchesIsSplitLength(s: string, sep: string)
    requires |sep| > 0
    ensures CountMatches(s, sep) == |Split(s, sep)| - 1
    decreases |s|
  {
    if |sep| <= |s| && s[..|sep|] == sep {
      CountMatchesIsSplitLength(s[|sep|..], sep);
    } else if |s| == 0 {
    } else {
      CountMatchesIsSplitLength(s[1..], sep);
    }
  }

  /** A text in which the target never occurs is left as it is by `Replace`. */
  lemma {:induction false} ReplaceAbsent(s: string, target: string, replacement: string)
    requires |target| > 0
    requires !Occurs(s, target)
    ensures Replace(s, target, replacement) == s
    ensures CountMatches(s, target) == 0
    decreases |s|
  {
    assert !OccursAt(s, target, 0);
    if |s| > 0 {
      forall i: nat
        ensures !OccursAt(s[1..], target, i)
      {
        assert !OccursAt(s, target, i + 1);
        if i + |target| <= |s| - 1 {
          assert s[i + 1..i + 1 + |target|] == s[1..][i..i + |target|];
        }
      }
      ReplaceAbsent(s[1..], target, replacement);
      assert s == [s[0]] + s[1..];
    }
  }

  /** Replacing with a single character shrinks the text by `|target| - 1` for each
      occurrence. */
  lemma {:induction false} ReplaceWithCharLength(s: string, target: string, c: char)
    requires |target| > 0
    ensures |Replace(s, target, [c])| == |s| - CountMatches(s, target) * (|target| - 1)
    decreases |s|
  {
    if |target| <= |s| && s[..|target|] == target {
      var rest := s[|target|..];
      ReplaceWithCharLength(rest, target, c);
      assert CountMatches(s, target) == CountMatches(rest, target) + 1;
      assert |Replace(s, target, [c])| == 1 + |Replace(rest, target, [c])|;
      MulSucc(CountMatches(rest, target), |target| - 1);
    } else if |s| > 0 {
      ReplaceWithCharLength(s[1..], target, c);
      assert CountMatches(s, target) == CountMatches(s[1..], target);
      assert |Replace(s, target, [c])| == 1 + |Replace(s[1..], target, [c])|;
    }
  }

  /** One more occurrence adds one more `t` to the shrinkage. */
  lemma MulSucc(m: int, t: int)
    ensures (m + 1) * t == m * t + t
  {
  }

  /** Up to the first character a replacement put there, `Replace` copies its input. */
  lemma {:induction false} ReplaceCopiesUntilReplacement(s: string, target: string, c: char, k: nat)
    requires |target| > 0
    ensures k <= |Replace(s, target, [c])| && (forall j :: 0 <= j < k ==> Replace(s, target, [c])[j] != c)
            ==> k <= |s| && Replace(s, target, [c])[..k] == s[..k]
    decreases |s|
  {
    var r := Replace(s, target, [c]);
    if |target| <= |s| && s[..|target|] == target {
      assert |r| > 0 && r[0] == c;
    } else if |s| > 0 && k > 0 {
      var r' := Replace(s[1..], target, [c]);
      assert r == [s[0]] + r';
      if k <= |r| && forall j :: 0 <= j < k ==> r[j] != c {
        forall j | 0 <= j < k - 1
          ensures r'[j] != c
        {
          assert r'[j] == r[j + 1];
        }
        ReplaceCopiesUntilReplacement(s[1..], target, c, k - 1);
        assert s[..k] == [s[0]] + s[1..][..k - 1];
      }
    }
  }

  /** Replacing every occurrence by a character the target does not contain leaves no
      occurrence behind. */
  lemma {:induction false} ReplaceRemovesTarget(s: string, target: string, c: char)
    requires |target| > 0
    requires c !in target
    ensures !Occurs(Replace(s, target, [c]), target)
    decreases |s|
  {
    var r := Replace(s, target, [c]);
    if |target| <= |s| && s[..|target|] == target {
      var r' := Replace(s[|target|..], target, [c]);
      ReplaceRemovesTarget(s[|target|..], target, c);
      assert r == [c] + r';
      assert r[0] != target[0];
      ConsKeepsAbsent(c, r', target);
    } else if |s| > 0 {
      var r' := Replace(s[1..], target, [c]);
      ReplaceRemovesTarget(s[1..], target, c);
      assert r == [s[0]] + r';
      var k := |target| - 1;
      if |target| <= |r| && forall j :: 0 <= j < k ==> r'[j] != c {
        ReplaceCopiesUntilReplacement(s[1..], target, c, k);
        assert r[..|target|] == [s[0]] + r'[..k];
        assert r[..|target|] == s[..|target|];
      } else if |target| <= |r| {
        var j :| 0 <= j < k && r'[j] == c;
        assert r[j + 1] == c;
        assert target[j + 1] != c;
      }
      ConsKeepsAbsent(s[0], r', target);
    }
  }

  /** A leading piece free of a one-character separator becomes the front of the
      first token. */
  lemma {:induction false} SplitSkipsFreePiece(piece: string, rest: string, c: char)
    requires c !in piece
    ensures Split(piece + rest, [c]) == [piece + Split(rest, [c])[0]] + Split(rest, [c])[1..]
    decreases |piece|
  {
    var t := Split(rest, [c]);
    if |piece| == 0 {
      assert piece + rest == rest;
      assert piece + t[0] == t[0];
      assert t == [t[0]] + t[1..];
    } else {
      var s := piece + rest;
      assert s[..1] == [piece[0]];
      assert s[1..] == piece[1..] + rest;
      SplitSkipsFreePiece(piece[1..], rest, c);
      var r := Split(s[1..], [c]);
      assert r == [piece[1..] + t[0]] + t[1..];
      calc {
        Split(s, [c]);
        [[s[0]] + r[0]] + r[1..];
        { assert r[1..] == t[1..]; }
        [[piece[0]] + (piece[1..] + t[0])] + t[1..];
        { assert [piece[0]] + (piece[1..] + t[0]) == piece + t[0]; }
        [piece + t[0]] + t[1..];
      }
    }
  }

  /** Splitting a join on a one-character separator that no part contains gives the
      parts back. */
  lemma {:induction false} SplitJoin(parts: seq<string>, c: char)
    requires |parts| > 0
    requires forall k :: 0 <= k < |parts| ==> c !in parts[k]
    ensures Split(Join(parts, [c]), [c]) == parts
    decreases |parts|
  {
    if |parts| == 1 {
      SplitSkipsFreePiece(parts[0], "", c);
      assert parts[0] + "" == parts[0];
    } else {
      var tail := Join(parts[1..], [c]);
      SplitJoin(parts[1..], c);
      var rest := [c] + tail;
      assert rest[..1] == [c] && rest[1..] == tail;
      assert Split(rest, [c]) == [""] + parts[1..];
      SplitSkipsFreePiece(parts[0], rest, c);
      assert Join(parts, [c]) == parts[0] + rest;
      assert parts[0] + "" == parts[0];
      assert ([""] + parts[1..])[1..] == parts[1..];
      assert parts == [parts[0]] + parts[1..];
    }
  }

  /** No token of the commons-lang split contains the separator. */
  lemma SplitPreserveAllTokensSeparatorFree(s: string, sep: string)
    requires |sep| > 0
    ensures forall k :: 0 <= k < |SplitPreserveAllTokens(s, sep)| ==>
              !Occurs(SplitPreserveAllTokens(s, sep)[k], sep)
  {
    forall k | 0 <= k < |SplitPreserveAllTokens(s, sep)|
      ensures !Occurs(SplitPreserveAllTokens(s, sep)[k], sep)
    {
      SplitTokensAreSeparatorFree(s, sep, k);
    }
  }

  /** No token is longer than the text it was split from. */
  lemma {:induction false} SplitTokensNoLonger(s: string, sep: string)
    requires |sep| > 0
    ensures forall k :: 0 <= k < |Split(s, sep)| ==> |Split(s, sep)[k]| <= |s|
    decreases |s|
  {
    if |sep| <= |s| && s[..|sep|] == sep {
      SplitTokensNoLonger(s[|sep|..], sep);
    } else if |s| > 0 {
      SplitTokensNoLonger(s[1..], sep);
    }
  }
}
