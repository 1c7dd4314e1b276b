/** The slice-expression parser of the `Functions` helper class: `"N"`, `"A:B"`,
    `":B"`, `"A:"` and `":"` become a triple of nullable indices
    `{single, start, end}`, or an `ArgParseError`. */
module SliceSyntax {
  import opened Wrappers
  import Text
  import Chars
  import Decimal
  import StringUtil

  /** Why a slice expression was refused; `Message` is the text the user sees. */
  datatype ArgParseError =
    | NotAnInteger(token: string)
    | SingleMissing
    | TooManyColons(count: nat, expr: string)
  {
    function Message(): string
    {
      match this
      case NotAnInteger(token) => "Could not parse \"" + token + "\" into an integer"
      case SingleMissing => "The single value slice argument must be an integer"
      case TooManyColons(count, expr) =>
        "Too many colons (" + Decimal.FormatInt(count) + ") in slice argument: \"" + expr + "\""
    }
  }

  /** The parsed expression: either a single index, or a start/end pair each of which
      may be missing. */
  datatype SliceArgs = SliceArgs(single: Option<int>, start: Option<int>, end: Option<int>)
  {
    /** The two shapes the parser produces. */
    predicate WellFormed()
    {
      && (single.Some? ==> start.None? && end.None?)
      && (single.Some? ==> Decimal.IsInt32(single.value))
      && (start.Some? ==> Decimal.IsInt32(start.value))
      && (end.Some? ==> Decimal.IsInt32(end.value))
    }
  }

  /** `token.trim().equals("")`: the token holds nothing above U+0020. */
  predicate IsBlank(token: string)
  {
    forall i :: 0 <= i < |token| ==> Chars.IsTrimmable(token[i])
  }

  /** `parseToken`: a blank token means "no value"; any other token is handed
      untrimmed to `Integer.valueOf`, and what that refuses is an error. */
  function ParseToken(token: string): (r: Result<Option<int>, ArgParseError>)
    ensures r == Ok(None) <==> IsBlank(token)
    ensures r.Err? <==> !IsBlank(token) && Decimal.ParseInt(token).None?
    ensures r.Err? ==> r.error == NotAnInteger(token)
    ensures r.Ok? && r.value.Some? ==> Decimal.ParseInt(token) == r.value
    ensures !IsBlank(token) && (Chars.IsTrimmable(token[0]) || Chars.IsTrimmable(token[|token| - 1])) ==>
              r == Err(NotAnInteger(token))
  {
    JavaTrimEmptyIffBlank(token);
    PaddedIsNotInt(token);
    if StringUtil.JavaTrim(token) == "" then Ok(None)
    else
      match Decimal.ParseInt(token)
      case Some(v) => Ok(Some(v))
      case None => Err(NotAnInteger(token))
  }

  /** `Integer.valueOf` does not trim: a non-blank token that starts or ends with a
      blank character is not an integer. */
  lemma PaddedIsNotInt(token: string)
    ensures !IsBlank(token) && (Chars.IsTrimmable(token[0]) || Chars.IsTrimmable(token[|token| - 1])) ==>
              Decimal.ParseInt(token).None?
  {
    if !IsBlank(token) && Decimal.ParseInt(token).Some? {
      assert !Chars.IsTrimmable(token[0]);
      if |token| > 1 {
        assert token[|token| - 1] == token[1..][|token| - 2];
      }
    }
  }

  /** `String.trim()` leaves nothing exactly when every character is at most U+0020. */
  lemma JavaTrimEmptyIffBlank(token: string)
    ensures StringUtil.JavaTrim(token) == "" <==> IsBlank(token)
  {
    var l := StringUtil.StripLeading(token, Chars.IsTrimmable);
    assert l != [] ==> l[0] == token[|token| - |l|];
    if l != [] {
      StringUtil.StripTrailingKeepsFirst(l, Chars.IsTrimmable);
    }
  }

  /** `parseSliceSyntax`: the number of colons picks the shape.  No colon: one index,
      which must be present.  One colon: the tokens on either side, each possibly
      missing.  More colons: an error. */
  function ParseSliceSyntax(expr: string): (r: Result<SliceArgs, ArgParseError>)
    ensures r.Ok? ==> r.value.WellFormed()
    ensures Text.CountMatches(expr, ":") >= 2 ==> r == Err(TooManyColons(Text.CountMatches(expr, ":"), expr))
    ensures Text.CountMatches(expr, ":") == 0 ==>
              (r.Ok? <==> Decimal.ParseInt(expr).Some?) &&
              (r.Ok? ==> r.value == SliceArgs(Decimal.ParseInt(expr), None, None))
    ensures Text.CountMatches(expr, ":") == 0 && IsBlank(expr) ==> r == Err(SingleMissing)
    ensures Text.CountMatches(expr, ":") == 1 && r.Ok? ==> r.value.single.None?
  {
    var colonCount := Text.CountMatches(expr, ":");
    if colonCount == 0 then
      match ParseToken(expr)
      case Err(e) => Err(e)
      case Ok(None) => Err(SingleMissing)
      case Ok(Some(v)) => Ok(SliceArgs(Some(v), None, None))
    else if colonCount == 1 then
      Text.CountMatchesIsSplitLength(expr, ":");
      var tokens := Text.SplitPreserveAllTokens(expr, ":");
      match ParseToken(tokens[0])
      case Err(e) => Err(e)
      case Ok(startIdx) =>
        match ParseToken(tokens[1])
        case Err(e) => Err(e)
        case Ok(endIdx) => Ok(SliceArgs(None, startIdx, endIdx))
    else
      Err(TooManyColons(colonCount, expr))
  }

  /** An expression with exactly one colon is the two tokens around it, parsed
      independently, the left one first. */
  lemma OneColonParsesBothSides(a: string, b: string)
    requires ':' !in a && ':' !in b
    ensures var r := ParseSliceSyntax(a + ":" + b);
      match (ParseToken(a), ParseToken(b))
      case (Err(e), _) => r == Err(e)
      case (Ok(_), Err(e)) => r == Err(e)
      case (Ok(start), Ok(end)) => r == Ok(SliceArgs(None, start, end))
  {
    SplitAtOnlyColon(a, b);
    Text.CountMatchesIsSplitLength(a + ":" + b, ":");
  }

  /** Writes parsed arguments back as an expression: the single index, or
      `start:end` with a missing side left empty. */
  function FormatSliceArgs(args: SliceArgs): string
  {
    if args.single.Some? then Decimal.FormatInt(args.single.value)
    else
      (if args.start.Some? then Decimal.FormatInt(args.start.value) else "")
      + ":" +
      (if args.end.Some? then Decimal.FormatInt(args.end.value) else "")
  }

  /** Every shape the parser can produce is produced from its own written form. */
  lemma ParseFormatRoundTrip(args: SliceArgs)
    requires args.WellFormed()
    ensures ParseSliceSyntax(FormatSliceArgs(args)) == Ok(args)
  {
    if args.single.Some? {
      var s := Decimal.FormatInt(args.single.value);
      FormattedIsToken(args.single);
      NoColonCountsNone(s);
      assert FormatSliceArgs(args) == s;
      assert ParseToken(s) == Ok(args.single);
      assert args == SliceArgs(args.single, None, None);
      assert ParseSliceSyntax(s) == Ok(SliceArgs(args.single, None, None));
    } else {
      var a := if args.start.Some? then Decimal.FormatInt(args.start.value) else "";
      var b := if args.end.Some? then Decimal.FormatInt(args.end.value) else "";
      FormattedIsToken(args.start);
      FormattedIsToken(args.end);
      var expr := a + ":" + b;
      SplitAtOnlyColon(a, b);
      Text.CountMatchesIsSplitLength(expr, ":");
      assert FormatSliceArgs(args) == expr;
      assert Text.CountMatches(expr, ":") == 1;
      assert Text.SplitPreserveAllTokens(expr, ":") == [a, b];
      assert ParseToken(a) == Ok(args.start);
      assert ParseToken(b) == Ok(args.end);
      assert args == SliceArgs(None, args.start, args.end);
      assert ParseSliceSyntax(expr) == Ok(SliceArgs(None, args.start, args.end));
    }
  }

  /** The written form of an optional index has no colon and parses back to it. */
  lemma FormattedIsToken(v: Option<int>)
    requires v.Some? ==> Decimal.IsInt32(v.value)
    ensures var s := if v.Some? then Decimal.FormatInt(v.value) else "";
      ':' !in s && ParseToken(s) == Ok(v)
  {
    if v.Some? {
      var s := Decimal.FormatInt(v.value);
      Decimal.ParseFormatRoundTrip(v.value);
      assert !IsBlank(s) by {
        assert !Chars.IsTrimmable(s[0]);
      }
      assert ':' !in s;
    }
  }

  /** A text without a colon counts no colons. */
  lemma NoColonCountsNone(s: string)
    requires ':' !in s
    ensures Text.CountMatches(s, ":") == 0
  {
    StringUtil.NoFirstCharNoOccurrence(s, ":");
    Text.ReplaceAbsent(s, ":", "");
  }

  /** Splitting `a:b` on its only colon gives `a` and `b`. */
  lemma SplitAtOnlyColon(a: string, b: string)
    requires ':' !in a && ':' !in b
    ensures Text.Split(a + ":" + b, ":") == [a, b]
  {
    Text.SplitJoin([a, b], ':');
    assert Text.Join([a, b], ":") == a + ":" + b;
  }
}
