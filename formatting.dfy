/** `formatNumberOptions` and `formatNumber`: the options object holding the
    group mask, the decimal mask, the decimal separator and the fixes, and
    the format call that compiles fresh masks from them, applies the group
    mask to the integer digits and the decimal mask to the fraction digits,
    and joins the pieces.

    `formatNumber` receives a JavaScript number and splits its string form
    at the decimal point, after rounding it when it has more fraction digits
    than the decimal mask has characters. Here the number arrives already
    split: `intDigits` and `fracDigits` are the two strings the split
    produces, after any rounding. */
module Formatting {
  import opened Common
  import opened Masks
  import opened MaskLemmas

  // ---------------------------------------------------------------------
  // Specification
  // ---------------------------------------------------------------------

  /** The validation of `specifyAll`, applied to its parameters (not to the
      fields): a parameter left out is `undefined`, and calling `match` on
      it is a TypeError. */
  function CheckMasks(groupMaskStr: Option<string>, decimalMaskStr: Option<string>): Outcome
  {
    if groupMaskStr.None? then Fail(UndefinedMethodCall)
    else if DigitSlots(groupMaskStr.value).Failure? then Fail(GroupMaskWithoutPlaceholder)
    else if decimalMaskStr.None? then Fail(UndefinedMethodCall)
    else if DigitSlots(decimalMaskStr.value).Failure? then Fail(DecimalMaskWithoutPlaceholder)
    else Pass
  }

  predicate HasPlaceholder(m: string)
  {
    exists p :: 0 <= p < |m| && IsPlaceholder(m[p])
  }

  /** `specifyAll` succeeds exactly when both masks are given and each has a
      `0` or `#`; a missing group mask is reported before the decimal mask. */
  lemma CheckMasksAccepts(groupMaskStr: Option<string>, decimalMaskStr: Option<string>)
    ensures CheckMasks(groupMaskStr, decimalMaskStr).Pass?
        <==> groupMaskStr.Some? && decimalMaskStr.Some?
             && HasPlaceholder(groupMaskStr.value) && HasPlaceholder(decimalMaskStr.value)
    ensures groupMaskStr.Some? && !HasPlaceholder(groupMaskStr.value)
        ==> CheckMasks(groupMaskStr, decimalMaskStr) == Fail(GroupMaskWithoutPlaceholder)
    ensures groupMaskStr.Some? && HasPlaceholder(groupMaskStr.value)
            && decimalMaskStr.Some? && !HasPlaceholder(decimalMaskStr.value)
        ==> CheckMasks(groupMaskStr, decimalMaskStr) == Fail(DecimalMaskWithoutPlaceholder)
  {
  }

  /** The final assembly: the integer text, then the separator and the
      decimal text only when the decimal text is not empty, wrapped in the
      prefix and the postfix when they are not `null`. */
  function Assemble(prefix: JsText, intText: string, sep: string, decText: string, postfix: JsText): string
  {
    var body := if |decText| > 0 then intText + sep + decText else intText;
    (if prefix.Null? then "" else ToJsString(prefix)) + body + (if postfix.Null? then "" else ToJsString(postfix))
  }

  /** What `formatNumber` returns, or why it throws, for the option values
      and the two digit strings. */
  function FormatSpec(groupMaskStr: string, decimalMaskStr: string, sep: string,
                      prefix: JsText, postfix: JsText, intDigits: string, fracDigits: string): Result<string>
  {
    var gs := DigitSlots(groupMaskStr);
    var ds := DigitSlots(decimalMaskStr);
    if gs.Failure? then Failure(gs.error)
    else if ds.Failure? then Failure(ds.error)
    else
      var dec := ApplyMaskSpec(decimalMaskStr, fracDigits);
      if dec.Failure? then Failure(dec.error)
      else Success(Assemble(prefix, GroupFrom(groupMaskStr, gs.value, intDigits, |intDigits|), sep, dec.value, postfix))
  }

  /** The rounding step of `formatNumber` fires when the number has more
      fraction digits than the decimal mask has characters (literals
      included), and rounds to that many places. */
  predicate NeedsRounding(decimalMaskStr: string, decimalLen: nat)
  {
    |decimalMaskStr| < decimalLen
  }

  /** After the rounding step has cut the fraction to at most as many
      digits as the decimal mask has characters, formatting throws exactly
      when a mask has no placeholder (the TypeError of `compile`). */
  lemma FormatFails(groupMaskStr: string, decimalMaskStr: string, sep: string,
                    prefix: JsText, postfix: JsText, intDigits: string, fracDigits: string)
    requires !NeedsRounding(decimalMaskStr, |fracDigits|)
    ensures FormatSpec(groupMaskStr, decimalMaskStr, sep, prefix, postfix, intDigits, fracDigits).Success?
        <==> HasPlaceholder(groupMaskStr) && HasPlaceholder(decimalMaskStr)
    ensures !HasPlaceholder(groupMaskStr) || !HasPlaceholder(decimalMaskStr)
        ==> FormatSpec(groupMaskStr, decimalMaskStr, sep, prefix, postfix, intDigits, fracDigits) == Failure(NullLength)
  {
  }

  /** The separator is written exactly when the decimal text is not empty. */
  lemma AssembleSeparator(prefix: JsText, intText: string, sep: string, decText: string, postfix: JsText)
    requires prefix.Null? && postfix.Null?
    ensures decText == "" ==> Assemble(prefix, intText, sep, decText, postfix) == intText
    ensures decText != "" ==> Assemble(prefix, intText, sep, decText, postfix) == intText + sep + decText
  {
  }

  /** A separator group mask: the integer digits are grouped (and "0" is
      dropped), the decimal mask is applied to the fraction. */
  lemma FormatSepMask(sep: char, g: nat, decimalMaskStr: string, dsep: string,
                      prefix: JsText, postfix: JsText, intDigits: string, fracDigits: string)
    requires !IsPlaceholder(sep) && 1 <= g
    requires 1 <= |intDigits| && (intDigits[0] != '0' || intDigits == "0")
    requires HasPlaceholder(decimalMaskStr) && |fracDigits| <= |decimalMaskStr|
    ensures var intText := if intDigits == "0" then "" else GroupDigits(sep, g, intDigits);
            FormatSpec(SepMask(sep, g), decimalMaskStr, dsep, prefix, postfix, intDigits, fracDigits)
            == Success(Assemble(prefix, intText, dsep, ForwardText(decimalMaskStr, fracDigits), postfix))
  {
    if intDigits == "0" {
      GroupingZero(sep, g);
    } else {
      Grouping(sep, g, intDigits);
    }
    SepMaskCount(sep, g, 1);
  }

  /** With the default options (`,###`, `##`, `.`, no fixes), a number
      without leading zeros formats as its integer digits grouped in threes
      and its (at most two) fraction digits after a `.`; an integer part of
      "0" and a fraction of "0" are both dropped. */
  lemma FormatDefaults(intDigits: string, fracDigits: string)
    requires 1 <= |intDigits| && (intDigits[0] != '0' || intDigits == "0") && |fracDigits| <= 2
    ensures var intText := if intDigits == "0" then "" else GroupDigits(',', 3, intDigits);
            var decText := if fracDigits == "0" then "" else fracDigits;
            FormatSpec(",###", "##", ".", Null, Null, intDigits, fracDigits)
            == Success(if decText == "" then intText else intText + "." + decText)
  {
    DefaultSepMask();
    assert IsPlaceholder("##"[0]);
    FormatSepMask(',', 3, "##", ".", Null, Null, intDigits, fracDigits);
    ForwardOptionalPair(fracDigits);
    var intText := if intDigits == "0" then "" else GroupDigits(',', 3, intDigits);
    var decText := if fracDigits == "0" then "" else fracDigits;
    assert ForwardText("##", fracDigits) == decText;
    AssembleSeparator(Null, intText, ".", decText, Null);
  }

  /** The rounding step counts mask characters, not placeholders: with the
      decimal mask `#-#`, three fraction digits are not rounded, and the
      middle one is replaced by the literal. */
  lemma RoundingCountsLiterals()
    ensures !NeedsRounding("#-#", 3)
    ensures CountFrom("#-#", 0) == 2
    ensures FormatSpec(",###", "#-#", ".", Null, Null, "1", "123") == Success("1.1-3")
  {
    var dm := "#-#";
    assert dm[2..] == "#" && dm[1..] == "-#";
    assert CountFrom(dm, 2) == 1;
    LiteralMaskFormat();
  }

  lemma LiteralMaskFormat()
    ensures FormatSpec(",###", "#-#", ".", Null, Null, "1", "123") == Success("1.1-3")
  {
    var dm, intDigits, fracDigits := "#-#", "1", "123";
    DefaultSepMask();
    ForwardLiteralExample();
    assert IsPlaceholder(dm[0]);
    FormatSepMask(',', 3, dm, ".", Null, Null, intDigits, fracDigits);
    var intText := GroupDigits(',', 3, intDigits);
    assert intText == intDigits;
    AssembleSeparator(Null, intText, ".", "1-3", Null);
    assert intDigits + "." + "1-3" == "1.1-3";
  }

  /** Under the defaults, an integer part without a leading zero and a
      fraction of one or two digits other than "0" give the grouped integer
      digits, a `.`, and the fraction digits. */
  lemma FormatDefaultsGrouped(intDigits: string, fracDigits: string)
    requires 1 <= |intDigits| && intDigits[0] != '0'
    requires 1 <= |fracDigits| <= 2 && fracDigits != "0"
    ensures FormatSpec(",###", "##", ".", Null, Null, intDigits, fracDigits)
            == Success(GroupDigits(',', 3, intDigits) + "." + fracDigits)
  {
    FormatDefaults(intDigits, fracDigits);
    assert intDigits != "0";
  }

  /** A worked example: 1234567.5 under the defaults. */
  lemma FormatExample()
    ensures FormatSpec(",###", "##", ".", Null, Null, "1234567", "5") == Success("1,234,567.5")
  {
    var frac := "5";
    assert frac[0] == '5';
    FormatDefaultsGrouped("1234567", frac);
    GroupSevenDigits();
    assert "1,234,567" + "." + frac == "1,234,567.5";
  }

  // ---------------------------------------------------------------------
  // The options object and the format call
  // ---------------------------------------------------------------------

  /** `formatNumberOptions`. The `compiled` flag is never set, so every
      format call compiles fresh mask objects. The `print` method and the
      unused `numberMaskValidRegex` field are left out. */
  class FormatOptions {
    var groupMaskStr: string
    var decimalSeparatorStr: string
    var decimalMaskStr: string
    var negativeMaskStr: string
    var prefix: JsText
    var postfix: JsText
    var groupMask: FormatMask?
    var decimalMask: FormatMask?
    var compiled: bool
    var roundingMode: int

    /** `compiled` stays false, and the postfix is never `undefined`. */
    ghost predicate Valid()
      reads this
    {
      !compiled && !postfix.Undefined?
    }

    constructor ()
      ensures groupMaskStr == ",###" && decimalSeparatorStr == "." && decimalMaskStr == "##"
      ensures negativeMaskStr == "-(.+)" && prefix == Null && postfix == Null
      ensures groupMask == null && decimalMask == null && !compiled && roundingMode == 0
      ensures Valid()
    {
      groupMaskStr, decimalSeparatorStr, decimalMaskStr := ",###", ".", "##";
      negativeMaskStr := "-(.+)";
      prefix, postfix := Null, Null;
      groupMask, decimalMask := null, null;
      compiled := false;
      roundingMode := 0;
    }

    /** `specifyAll`: each given string replaces its field; then the masks
        passed in are checked, so an invalid mask is stored before the
        Error is thrown. */
    method SpecifyAll(groupMaskStr: Option<string>, decimalMaskStr: Option<string>,
                      decimalSeparatorStr: Option<string>, negativeMaskStr: Option<string>) returns (o: Outcome)
      requires Valid()
      modifies this`groupMaskStr, this`decimalMaskStr, this`decimalSeparatorStr, this`negativeMaskStr
      ensures Valid()
      ensures this.groupMaskStr == (if groupMaskStr.Some? then groupMaskStr.value else old(this.groupMaskStr))
      ensures this.decimalMaskStr == (if decimalMaskStr.Some? then decimalMaskStr.value else old(this.decimalMaskStr))
      ensures this.decimalSeparatorStr == (if decimalSeparatorStr.Some? then decimalSeparatorStr.value else old(this.decimalSeparatorStr))
      ensures this.negativeMaskStr == (if negativeMaskStr.Some? then negativeMaskStr.value else old(this.negativeMaskStr))
      ensures o == CheckMasks(groupMaskStr, decimalMaskStr)
    {
      if groupMaskStr.Some? {
        this.groupMaskStr := groupMaskStr.value;
      }
      if decimalMaskStr.Some? {
        this.decimalMaskStr := decimalMaskStr.value;
      }
      if decimalSeparatorStr.Some? {
        this.decimalSeparatorStr := decimalSeparatorStr.value;
      }
      if negativeMaskStr.Some? {
        this.negativeMaskStr := negativeMaskStr.value;
      }
      if groupMaskStr.None? {
        return Fail(UndefinedMethodCall);
      }
      if DigitSlots(groupMaskStr.value).Failure? {
        return Fail(GroupMaskWithoutPlaceholder);
      }
      if decimalMaskStr.None? {
        return Fail(UndefinedMethodCall);
      }
      if DigitSlots(decimalMaskStr.value).Failure? {
        return Fail(DecimalMaskWithoutPlaceholder);
      }
      return Pass;
    }

    /** `specifyDecimalMask`: checked before it is stored. */
    method SpecifyDecimalMask(decimalMaskStr: string) returns (o: Outcome)
      requires Valid()
      modifies this`decimalMaskStr
      ensures Valid()
      ensures o.Pass? <==> HasPlaceholder(decimalMaskStr)
      ensures o.Pass? ==> this.decimalMaskStr == decimalMaskStr
      ensures o.Fail? ==> o.error == DecimalMaskWithoutPlaceholder && unchanged(this)
    {
      if DigitSlots(decimalMaskStr).Failure? {
        return Fail(DecimalMaskWithoutPlaceholder);
      }
      this.decimalMaskStr := decimalMaskStr;
      return Pass;
    }

    /** `specifyFixes`: the prefix is always replaced, even by `undefined`
        (which then prints as "undefined"); the postfix only when given. */
    method SpecifyFixes(prefix: JsText, postfix: Option<string>)
      requires Valid()
      modifies this`prefix, this`postfix
      ensures Valid()
      ensures this.prefix == prefix
      ensures this.postfix == (if postfix.Some? then Str(postfix.value) else old(this.postfix))
    {
      this.prefix := prefix;
      if postfix.Some? {
        this.postfix := Str(postfix.value);
      }
    }

    /** `specifyRounding` (the type checks are left out). */
    method SpecifyRounding(roundingMode: int)
      requires Valid()
      modifies this`roundingMode
      ensures Valid() && this.roundingMode == roundingMode
    {
      this.roundingMode := roundingMode;
    }

    /** `compile`: stores the two mask objects, makes the group mask
        repeating and reversed and the decimal mask neither, and compiles
        each; a group mask without placeholder throws before the decimal
        mask is stored. `compiled` is not set. */
    method Compile(groupMask: FormatMask, decimalMask: FormatMask) returns (o: Outcome)
      requires Valid() && groupMask != decimalMask
      requires groupMask.Valid() && decimalMask.Valid()
      modifies this`groupMask, this`decimalMask, groupMask, decimalMask
      ensures Valid() && groupMask.Valid() && decimalMask.Valid()
      ensures this.groupMask == groupMask && groupMask.repeating && groupMask.reversed
      ensures o == (if DigitSlots(groupMask.maskStr).Failure? then Fail(NullLength)
                    else if DigitSlots(decimalMask.maskStr).Failure? then Fail(NullLength)
                    else Pass)
      ensures DigitSlots(groupMask.maskStr).Success? ==>
                groupMask.compiled && groupMask.maskDigitSize == DigitSlots(groupMask.maskStr).value
      ensures DigitSlots(groupMask.maskStr).Failure? ==>
                !groupMask.compiled && groupMask.maskDigitSize == old(groupMask.maskDigitSize)
      ensures DigitSlots(groupMask.maskStr).Failure? ==> this.decimalMask == old(this.decimalMask) && unchanged(decimalMask)
      ensures DigitSlots(groupMask.maskStr).Success? ==>
                this.decimalMask == decimalMask && !decimalMask.repeating && !decimalMask.reversed
      ensures o.Pass? ==> decimalMask.compiled
    {
      if !compiled {
        this.groupMask := groupMask;
        groupMask.reversed := true;
        groupMask.repeating := true;
        o := groupMask.Compile();
        if o.Fail? {
          return;
        }
        this.decimalMask := decimalMask;
        decimalMask.reversed := false;
        decimalMask.repeating := false;
        o := decimalMask.Compile();
      }
    }
  }

  /** `formatNumber` on the digits of an already split (and rounded) number:
      the rounding step has left no more fraction digits than the decimal
      mask has characters. Two fresh mask objects are compiled on every
      call, since `compiled` is never set. */
  method FormatNumber(options: FormatOptions, intDigits: string, fracDigits: string) returns (r: Result<string>)
    requires options.Valid()
    requires !NeedsRounding(options.decimalMaskStr, |fracDigits|)
    modifies options`groupMask, options`decimalMask
    ensures options.Valid()
    ensures options.groupMask != null && fresh(options.groupMask) && options.groupMask.Valid()
    ensures options.groupMask.maskStr == options.groupMaskStr
    ensures options.groupMask.repeating && options.groupMask.reversed
    ensures options.groupMask.compiled <==> HasPlaceholder(options.groupMaskStr)
    ensures !HasPlaceholder(options.groupMaskStr) ==> options.decimalMask == old(options.decimalMask)
    ensures HasPlaceholder(options.groupMaskStr) ==>
              options.decimalMask != null && fresh(options.decimalMask) && options.decimalMask.Valid()
              && options.decimalMask.maskStr == options.decimalMaskStr
              && !options.decimalMask.repeating && !options.decimalMask.reversed
              && (options.decimalMask.compiled <==> HasPlaceholder(options.decimalMaskStr))
    ensures r == FormatSpec(options.groupMaskStr, options.decimalMaskStr, options.decimalSeparatorStr,
                            options.prefix, options.postfix, intDigits, fracDigits)
  {
    if !options.compiled {
      var groupMask := new FormatMask(options.groupMaskStr);
      var decimalMask := new FormatMask(options.decimalMaskStr);
      var o := options.Compile(groupMask, decimalMask);
      if o.Fail? {
        return Failure(o.error);
      }
    }
    var groupMask, decimalMask := options.groupMask, options.decimalMask;
    assert groupMask.maskStr == options.groupMaskStr && groupMask.Valid();
    assert decimalMask.maskStr == options.decimalMaskStr && decimalMask.Valid();
    var intText := groupMask.Apply(intDigits);
    var decText := decimalMask.Apply(fracDigits);
    if decText.Failure? {
      return Failure(decText.error);
    }
    var result := Assemble(options.prefix, intText.value, options.decimalSeparatorStr, decText.value, options.postfix);
    return Success(result);
  }
}
