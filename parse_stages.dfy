/** The five parse modules (`modules.Trim`, `NegativeNumber`,
    `FormattedNumber`, `Percentage`, `BadChars`) as rewrites of the text
    being parsed. Each module has a pre-pass (`parse`) and a post-pass
    (`postParse`); the pre-passes of `NegativeNumber` and `Percentage` also
    raise a flag of the call's context, which their post-passes read.

    The regular expressions the modules build are written out for the
    patterns they use: the default negative pattern `^-(.+)`, the default
    percent pattern `^(.+)%`, one-character group and decimal separators
    matched literally, JavaScript's `\s` class and `[^0-9\.]`. */
module ParseStages {
  import opened Common

  // ---------------------------------------------------------------------
  // Character classes
  // ---------------------------------------------------------------------

  /** JavaScript's `\s`: ASCII white space, the no-break and Unicode space
      separators, the line and paragraph separators and the byte order mark. */
  predicate IsSpace(c: char)
  {
    c == '\t' || c == '\n' || c == '\U{0B}' || c == '\U{0C}' || c == '\r' || c == ' '
    || c == '\U{A0}' || c == '\U{1680}' || ('\U{2000}' <= c <= '\U{200A}')
    || c == '\U{2028}' || c == '\U{2029}' || c == '\U{202F}' || c == '\U{205F}'
    || c == '\U{3000}' || c == '\U{FEFF}'
  }

  /** The characters JavaScript's `.` does not match. */
  predicate IsLineTerminator(c: char)
  {
    c == '\n' || c == '\r' || c == '\U{2028}' || c == '\U{2029}'
  }

  /** `[0-9\.]`: what `BadChars` keeps and strict mode allows. */
  predicate IsNumeric(c: char)
  {
    IsDigit(c) || c == '.'
  }

  predicate AllNumeric(s: string)
  {
    forall i :: 0 <= i < |s| ==> IsNumeric(s[i])
  }

  predicate NoLineTerminator(s: string)
  {
    forall i :: 0 <= i < |s| ==> !IsLineTerminator(s[i])
  }

  // ---------------------------------------------------------------------
  // Trim: `replace(/^\s+|\s+$/g, '')`
  // ---------------------------------------------------------------------

  /** The first position at or after `i` that does not hold white space. */
  function SpaceRunEnd(s: string, i: nat): (e: nat)
    requires i <= |s|
    ensures i <= e <= |s|
    ensures forall p :: i <= p < e ==> IsSpace(s[p])
    ensures e < |s| ==> !IsSpace(s[e])
    decreases |s| - i
  {
    if i == |s| || !IsSpace(s[i]) then i else SpaceRunEnd(s, i + 1)
  }

  /** The start of the run of white space that ends at `j`, not going
      below `lo`. */
  function SpaceRunStart(s: string, lo: nat, j: nat): (b: nat)
    requires lo <= j <= |s|
    ensures lo <= b <= j
    ensures forall p :: b <= p < j ==> IsSpace(s[p])
    ensures lo < b ==> !IsSpace(s[b - 1])
    decreases j
  {
    if j == lo || !IsSpace(s[j - 1]) then j else SpaceRunStart(s, lo, j - 1)
  }

  /** The text with its leading and trailing white space removed: `^\s+`
      matches the leading run, and `\s+$` the trailing run that starts
      after it. */
  function TrimText(s: string): string
  {
    var a := SpaceRunEnd(s, 0);
    s[a..SpaceRunStart(s, a, |s|)]
  }

  /** The trimmed text is the slice of the input that starts after the
      leading white space, everything cut off is white space, and the
      result neither starts nor ends with white space. */
  lemma TrimShape(s: string)
    ensures var a := SpaceRunEnd(s, 0);
            var r := TrimText(s);
            a + |r| <= |s| && r == s[a..a + |r|]
            && (forall i :: 0 <= i < a ==> IsSpace(s[i]))
            && (forall i :: a + |r| <= i < |s| ==> IsSpace(s[i]))
    ensures var r := TrimText(s);
            r == [] || (!IsSpace(r[0]) && !IsSpace(r[|r| - 1]))
  {
    var a := SpaceRunEnd(s, 0);
    var b := SpaceRunStart(s, a, |s|);
    var r := s[a..b];
    if r != [] {
      assert r[0] == s[a];
      assert r[|r| - 1] == s[b - 1];
    }
  }

  /** Text that neither starts nor ends with white space is left alone. */
  lemma TrimUntrimmed(s: string)
    requires s == [] || (!IsSpace(s[0]) && !IsSpace(s[|s| - 1]))
    ensures TrimText(s) == s
  {
    assert SpaceRunEnd(s, 0) == 0;
    assert SpaceRunStart(s, 0, |s|) == |s|;
    assert s[0..|s|] == s;
  }

  lemma TrimIdempotent(s: string)
    ensures TrimText(TrimText(s)) == TrimText(s)
  {
    TrimShape(s);
    TrimUntrimmed(TrimText(s));
  }

  // ---------------------------------------------------------------------
  // NegativeNumber and Percentage: the default patterns
  // ---------------------------------------------------------------------

  /** The first line terminator at or after `i`, or `|s|`. */
  function LineEnd(s: string, i: nat): (e: nat)
    requires i <= |s|
    ensures i <= e <= |s|
    ensures forall p :: i <= p < e ==> !IsLineTerminator(s[p])
    ensures e < |s| ==> IsLineTerminator(s[e])
    decreases |s| - i
  {
    if i == |s| || IsLineTerminator(s[i]) then i else LineEnd(s, i + 1)
  }

  lemma {:induction false} LineEndWhole(s: string, i: nat)
    requires NoLineTerminator(s) && i <= |s|
    ensures LineEnd(s, i) == |s|
    decreases |s| - i
  {
    if i < |s| {
      LineEndWhole(s, i + 1);
    }
  }

  /** The capture of `^-(.+)`: a leading `-`, then the longest non-empty run
      of characters other than line terminators. */
  function NegativeMatch(s: string): Option<string>
  {
    if |s| >= 2 && s[0] == '-' && !IsLineTerminator(s[1]) then Some(s[1..LineEnd(s, 1)]) else None
  }

  /** On one line, the default negative pattern matches exactly the texts
      made of a `-` and at least one more character, and the capture is
      that rest: prepending the `-` again gives the input back. */
  lemma NegativeRoundTrip(s: string, u: string)
    requires NoLineTerminator(s)
    ensures NegativeMatch(s) == Some(u) <==> s == "-" + u && u != []
  {
    if |s| >= 1 {
      LineEndWhole(s, 1);
    }
    if NegativeMatch(s) == Some(u) {
      assert LineEnd(s, 1) == |s|;
      assert s == [s[0]] + s[1..];
      assert u == s[1..] && u != [];
      assert s == "-" + u;
    }
    if s == "-" + u && u != [] {
      assert s[0] == '-' && s[1..] == u;
      assert !IsLineTerminator(s[1]);
      assert LineEnd(s, 1) == |s|;
      assert NegativeMatch(s) == Some(s[1..|s|]);
      assert s[1..|s|] == u;
    }
  }

  /** The largest `k` in `[1, j)` with `s[k] == '%'`. */
  function LastPercent(s: string, j: nat): (k: Option<nat>)
    requires j <= |s|
    ensures k.Some? ==> 1 <= k.value < j && s[k.value] == '%'
    ensures k.Some? ==> forall p :: k.value < p < j ==> s[p] != '%'
    ensures k.None? ==> forall p :: 1 <= p < j ==> s[p] != '%'
    decreases j
  {
    if j <= 1 then None
    else if s[j - 1] == '%' then Some(j - 1)
    else LastPercent(s, j - 1)
  }

  /** The capture of `^(.+)%`: the greedy `.+` stops at the first line
      terminator and backs off to the last `%` before it, which must not be
      the first character. */
  function PercentMatch(s: string): (r: Option<string>)
  {
    var k := LastPercent(s, LineEnd(s, 0));
    if k.Some? then Some(s[..k.value]) else None
  }

  /** On one line, the percent pattern matches when a `%` follows at least
      one character, and the capture is everything before the last `%`. */
  lemma PercentCapture(s: string)
    requires NoLineTerminator(s)
    ensures PercentMatch(s).Some? <==> exists k :: 1 <= k < |s| && s[k] == '%'
    ensures PercentMatch(s).Some? ==>
              var u := PercentMatch(s).value;
              1 <= |u| < |s| && u == s[..|u|] && s[|u|] == '%'
              && forall p :: |u| < p < |s| ==> s[p] != '%'
  {
    LineEndWhole(s, 0);
    if LastPercent(s, |s|).None? {
      forall k | 1 <= k < |s|
        ensures s[k] != '%'
      {
      }
    }
  }

  /** `Percentage.postParse`'s count of places: two more than the number of
      characters after the first decimal separator, or 2 when the text has
      none. The post-pass runs after `FormattedNumber` has replaced the
      separator by `.`, so with any separator but `.` the count is 2. */
  function PercentPlaces(s: string, decimalStr: char): (n: nat)
    ensures 2 <= n
    ensures decimalStr !in s ==> n == 2
  {
    var i := IndexOf(s, decimalStr);
    if i < |s| then assert s[i] in s; |s| - (i + 1) + 2 else 2
  }

  /** The first index of `c` in `s`, or `|s|`. */
  function IndexOf(s: string, c: char): (i: nat)
    ensures i <= |s|
    ensures forall p :: 0 <= p < i ==> s[p] != c
    ensures i < |s| ==> s[i] == c
  {
    if s == [] || s[0] == c then 0 else 1 + IndexOf(s[1..], c)
  }

  // ---------------------------------------------------------------------
  // FormattedNumber and BadChars
  // ---------------------------------------------------------------------

  /** `s` with every `c` removed. */
  function RemoveChar(s: string, c: char): (r: string)
    ensures c !in r
    ensures |r| <= |s|
  {
    if s == [] then [] else (if s[0] == c then [] else [s[0]]) + RemoveChar(s[1..], c)
  }

  /** Removing `c` shortens `s` by exactly the number of `c`s in it. */
  lemma {:induction false} RemoveCharLength(s: string, c: char)
    ensures |RemoveChar(s, c)| + Count(s, c) == |s|
    decreases |s|
  {
    if s != [] {
      RemoveCharLength(s[1..], c);
    }
  }

  lemma {:induction false} RemoveAbsent(s: string, c: char)
    requires c !in s
    ensures RemoveChar(s, c) == s
    decreases |s|
  {
    if s != [] {
      assert s == [s[0]] + s[1..];
      RemoveAbsent(s[1..], c);
    }
  }

  /** Removing a character distributes over concatenation. */
  lemma {:induction false} RemoveCharAppend(a: string, b: string, c: char)
    ensures RemoveChar(a + b, c) == RemoveChar(a, c) + RemoveChar(b, c)
    decreases |a|
  {
    if a != [] {
      var h := if a[0] == c then [] else [a[0]];
      var x, y := RemoveChar(a[1..], c), RemoveChar(b, c);
      calc {
        RemoveChar(a + b, c);
        == { assert (a + b)[0] == a[0]; assert (a + b)[1..] == a[1..] + b; }
        h + RemoveChar(a[1..] + b, c);
        == { RemoveCharAppend(a[1..], b, c); }
        h + (x + y);
        == { assert h + (x + y) == (h + x) + y; }
        RemoveChar(a, c) + y;
      }
    } else {
      assert a + b == b;
    }
  }

  /** Text that contains no white space is left alone by `Trim`. */
  lemma TrimNoSpace(s: string)
    requires forall i :: 0 <= i < |s| ==> !IsSpace(s[i])
    ensures TrimText(s) == s
  {
    TrimUntrimmed(s);
  }

  /** `s` with every `c` replaced by `d`. */
  function ReplaceChar(s: string, c: char, d: char): (r: string)
    ensures |r| == |s|
    ensures forall i :: 0 <= i < |s| ==> r[i] == if s[i] == c then d else s[i]
  {
    seq(|s|, i requires 0 <= i < |s| => if s[i] == c then d else s[i])
  }

  /** `s` with every character outside `[0-9.]` removed. */
  function KeepNumeric(s: string): (r: string)
    ensures AllNumeric(r)
    ensures |r| <= |s|
  {
    if s == [] then [] else (if IsNumeric(s[0]) then [s[0]] else []) + KeepNumeric(s[1..])
  }

  /** The number of characters outside `[0-9.]`. */
  function CountNonNumeric(s: string): (n: nat)
    ensures n == 0 <==> AllNumeric(s)
  {
    if s == [] then 0 else (if IsNumeric(s[0]) then 0 else 1) + CountNonNumeric(s[1..])
  }

  /** The digits of `s`, in order. */
  function Digits(s: string): string
  {
    if s == [] then [] else (if IsDigit(s[0]) then [s[0]] else []) + Digits(s[1..])
  }

  /** `FormattedNumber.parse`: remove the group separators, replace the
      decimal separators by `.` unless the separator is `.` already, and in
      strict mode count the points and the disallowed characters. Both
      counts read `.length` of a `match` result, which is `null` when there
      is nothing to count: a strict parse without a point throws, and so
      does a strict parse without `removeBadCh` whose text is clean. */
  function FormattedText(s: string, groupStr: char, decimalStr: char): string
  {
    var t := RemoveChar(s, groupStr);
    if decimalStr != '.' then ReplaceChar(t, decimalStr, '.') else t
  }

  function FormattedParse(s: string, groupStr: char, decimalStr: char, strict: bool, removeBadCh: bool): Result<string>
  {
    var t := FormattedText(s, groupStr, decimalStr);
    if !strict then Success(t)
    else
      var points := Count(t, '.');
      if points == 0 then Failure(NullLength)
      else if points > 1 then Failure(MultipleDecimalPoints(points))
      else if removeBadCh then Success(t)
      else
        var bad := CountNonNumeric(t);
        if bad == 0 then Failure(NullLength) else Failure(DisallowedChars(bad))
  }

  lemma ReplaceCharCount(s: string, c: char, d: char)
    requires c != d
    ensures c !in ReplaceChar(s, c, d)
    ensures Digits(ReplaceChar(s, c, d)) == Digits(s) || IsDigit(c) || IsDigit(d)
  {
    var r := ReplaceChar(s, c, d);
    if !IsDigit(c) && !IsDigit(d) {
      DigitsPointwise(s, r);
    }
  }

  lemma {:induction false} DigitsPointwise(s: string, r: string)
    requires |s| == |r|
    requires forall i :: 0 <= i < |s| ==> (s[i] == r[i] || (!IsDigit(s[i]) && !IsDigit(r[i])))
    ensures Digits(s) == Digits(r)
    decreases |s|
  {
    if s != [] {
      DigitsPointwise(s[1..], r[1..]);
    }
  }

  lemma {:induction false} DigitsRemove(s: string, c: char)
    requires !IsDigit(c)
    ensures Digits(RemoveChar(s, c)) == Digits(s)
    decreases |s|
  {
    if s != [] {
      DigitsRemove(s[1..], c);
      DigitsAppend((if s[0] == c then [] else [s[0]]), RemoveChar(s[1..], c));
    }
  }

  lemma {:induction false} DigitsAppend(a: string, b: string)
    ensures Digits(a + b) == Digits(a) + Digits(b)
    decreases |a|
  {
    if a == [] {
      assert a + b == b;
    } else {
      var h := if IsDigit(a[0]) then [a[0]] else [];
      var x, y := Digits(a[1..]), Digits(b);
      calc {
        Digits(a + b);
        == { assert (a + b)[0] == a[0]; assert (a + b)[1..] == a[1..] + b; }
        h + Digits(a[1..] + b);
        == { DigitsAppend(a[1..], b); }
        h + (x + y);
        == { assert h + (x + y) == (h + x) + y; }
        Digits(a) + y;
      }
    }
  }

  /** What `FormattedNumber` guarantees when it succeeds: no group separator
      is left, no decimal separator other than `.` is left, and the digits
      are those of the input, in order. */
  lemma FormattedKeepsDigits(s: string, groupStr: char, decimalStr: char, strict: bool, removeBadCh: bool)
    requires !IsDigit(groupStr) && !IsDigit(decimalStr)
    ensures var r := FormattedParse(s, groupStr, decimalStr, strict, removeBadCh);
            r.Success? ==> Digits(r.value) == Digits(s)
                           && (groupStr != '.' || decimalStr == '.' ==> groupStr !in r.value)
                           && (decimalStr != '.' ==> decimalStr !in r.value)
  {
    var t := RemoveChar(s, groupStr);
    DigitsRemove(s, groupStr);
    if decimalStr != '.' {
      ReplaceCharCount(t, decimalStr, '.');
      var u := ReplaceChar(t, decimalStr, '.');
      if groupStr != '.' {
        assert groupStr !in u by {
          forall i | 0 <= i < |u| ensures u[i] != groupStr {
            assert t[i] != groupStr by { assert t[i] in t; }
          }
        }
      }
    }
  }

  /** Strict mode: without `removeBadCh` every input throws; with it, the
      parse succeeds exactly when one point is left. */
  lemma StrictMode(s: string, groupStr: char, decimalStr: char)
    ensures FormattedParse(s, groupStr, decimalStr, true, false).Failure?
    ensures var t := FormattedText(s, groupStr, decimalStr);
            FormattedParse(s, groupStr, decimalStr, true, true).Success? <==> Count(t, '.') == 1
    ensures var t := FormattedText(s, groupStr, decimalStr);
            Count(t, '.') > 1 ==> FormattedParse(s, groupStr, decimalStr, true, true) == Failure(MultipleDecimalPoints(Count(t, '.')))
  {
  }

  lemma {:induction false} KeepNumericOfNumeric(s: string)
    requires AllNumeric(s)
    ensures KeepNumeric(s) == s
    decreases |s|
  {
    if s != [] {
      KeepNumericOfNumeric(s[1..]);
    }
  }

  /** `BadChars` keeps exactly the characters `[0-9.]`, so it is idempotent. */
  lemma BadCharsIdempotent(s: string)
    ensures KeepNumeric(KeepNumeric(s)) == KeepNumeric(s)
  {
    KeepNumericOfNumeric(KeepNumeric(s));
  }

  lemma {:induction false} KeepNumericDigits(s: string)
    ensures Digits(KeepNumeric(s)) == Digits(s)
    decreases |s|
  {
    if s != [] {
      KeepNumericDigits(s[1..]);
      DigitsAppend(if IsNumeric(s[0]) then [s[0]] else [], KeepNumeric(s[1..]));
    }
  }

  // ---------------------------------------------------------------------
  // The stages
  // ---------------------------------------------------------------------

  datatype Operator = Trim | NegativeNumber | FormattedNumber | Percentage | BadChars

  /** The option values the modules read while parsing. `negativeMatch`
      says whether the negative pattern is set (the default one) or null. */
  datatype Config = Config(decimalStr: char, groupStr: char, strict: bool, trim: bool,
                           removeBadCh: bool, negativeMatch: bool, percEnabled: bool)

  /** The flags of `parseContext` that the modules set and read. */
  datatype Flags = Flags(isNegative: bool, isPerc: bool)

  /** The value threaded through the post-passes: the text, and the places
      `Percentage.postParse` rounds to once it has turned the text into a
      percentage (the division by 100 and the rounding are not modelled). */
  datatype Parsed = Parsed(text: string, percentPlaces: Option<nat>)

  /** One pre-pass. */
  function ParseStage(op: Operator, cfg: Config, s: string, f: Flags): (r: Result<(string, Flags)>)
    ensures r.Success? ==> r.value.1.isNegative == (f.isNegative || (op == NegativeNumber && cfg.negativeMatch && NegativeMatch(s).Some?))
    ensures r.Success? ==> r.value.1.isPerc == (f.isPerc || (op == Percentage && cfg.percEnabled && PercentMatch(s).Some?))
    ensures r.Failure? ==> op == FormattedNumber && cfg.strict
  {
    match op
    case Trim => Success((if cfg.trim then TrimText(s) else s, f))
    case NegativeNumber =>
      var m := NegativeMatch(s);
      if cfg.negativeMatch && m.Some? then Success((m.value, f.(isNegative := true))) else Success((s, f))
    case FormattedNumber =>
      var t := FormattedParse(s, cfg.groupStr, cfg.decimalStr, cfg.strict, cfg.removeBadCh);
      if t.Failure? then Failure(t.error) else Success((t.value, f))
    case Percentage =>
      var m := PercentMatch(s);
      if cfg.percEnabled && m.Some? then Success((m.value, f.(isPerc := true))) else Success((s, f))
    case BadChars => Success((if cfg.removeBadCh then KeepNumeric(s) else s, f))
  }

  /** One post-pass. */
  function PostStage(op: Operator, cfg: Config, v: Parsed, f: Flags): (r: Parsed)
    ensures op != NegativeNumber ==> r.text == v.text
    ensures op != Percentage ==> r.percentPlaces == v.percentPlaces
  {
    match op
    case NegativeNumber => if f.isNegative then v.(text := "-" + v.text) else v
    case Percentage => if f.isPerc then v.(percentPlaces := Some(PercentPlaces(v.text, cfg.decimalStr))) else v
    case _ => v
  }

  /** The post-passes of `Trim`, `FormattedNumber` and `BadChars` return
      their input; `NegativeNumber`'s prepends exactly one `-` when the flag
      is set. */
  lemma PostStageIdentity(op: Operator, cfg: Config, v: Parsed, f: Flags)
    ensures op in {Trim, FormattedNumber, BadChars} ==> PostStage(op, cfg, v, f) == v
    ensures op == NegativeNumber ==>
              PostStage(op, cfg, v, f) == (if f.isNegative then Parsed("-" + v.text, v.percentPlaces) else v)
  {
  }

  /** A negative text survives the `NegativeNumber` pre-pass and post-pass
      unchanged. */
  lemma NegativeStageRoundTrip(cfg: Config, s: string, f: Flags)
    requires cfg.negativeMatch && NoLineTerminator(s) && |s| >= 2 && s[0] == '-' && !f.isNegative
    ensures var r := ParseStage(NegativeNumber, cfg, s, f);
            r.Success? && r.value.1.isNegative
            && PostStage(NegativeNumber, cfg, Parsed(r.value.0, None), r.value.1).text == s
  {
    NegativeRoundTrip(s, s[1..]);
  }
}
