/** `parseNumberSimple` and the objects it works with: the options
    (`parseNumberSimpleOptions`) and their cached operator list
    (`parseOperators`, built by `compileOperators`), and the per-call
    context (`parseContext`). The engine threads the text through the
    pre-pass of every operator in order, marks the context as being in the
    post-pass, and threads it through every post-pass in the same order.

    The conversion of the final text to a JavaScript number, the `NaNError`
    and the final rounding are not modelled: the result is the text the
    post-passes produce. */
module Parsing {
  import opened Common
  import opened ParseStages

  // ---------------------------------------------------------------------
  // The operator list
  // ---------------------------------------------------------------------

  /** The operators `compileOperators` adds for the given flags. */
  function OperatorList(trim: bool, negativeMatch: bool, percEnabled: bool, removeBadCh: bool): seq<Operator>
  {
    (if trim then [Trim] else []) + (if negativeMatch then [NegativeNumber] else []) + [FormattedNumber]
    + (if percEnabled then [Percentage] else []) + (if removeBadCh then [BadChars] else [])
  }

  /** The position of each module in the full list. */
  function Rank(op: Operator): nat
  {
    match op
    case Trim => 0
    case NegativeNumber => 1
    case FormattedNumber => 2
    case Percentage => 3
    case BadChars => 4
  }

  /** The list holds each optional module exactly when its flag is set,
      always holds `FormattedNumber`, and keeps the order Trim,
      NegativeNumber, FormattedNumber, Percentage, BadChars (so no module
      appears twice). */
  lemma OperatorListShape(trim: bool, negativeMatch: bool, percEnabled: bool, removeBadCh: bool)
    ensures var ops := OperatorList(trim, negativeMatch, percEnabled, removeBadCh);
            (Trim in ops <==> trim) && (NegativeNumber in ops <==> negativeMatch)
            && FormattedNumber in ops
            && (Percentage in ops <==> percEnabled) && (BadChars in ops <==> removeBadCh)
    ensures var ops := OperatorList(trim, negativeMatch, percEnabled, removeBadCh);
            forall i, j :: 0 <= i < j < |ops| ==> Rank(ops[i]) < Rank(ops[j])
  {
    var ops := OperatorList(trim, negativeMatch, percEnabled, removeBadCh);
    forall i, j | 0 <= i < j < |ops|
      ensures Rank(ops[i]) < Rank(ops[j])
    {
      OperatorListRanks(trim, negativeMatch, percEnabled, removeBadCh, i);
      OperatorListRanks(trim, negativeMatch, percEnabled, removeBadCh, j);
    }
  }

  /** The rank of the operator at position `i` of the list is `i` plus the
      number of modules left out before it. */
  lemma OperatorListRanks(trim: bool, negativeMatch: bool, percEnabled: bool, removeBadCh: bool, i: nat)
    requires i < |OperatorList(trim, negativeMatch, percEnabled, removeBadCh)|
    ensures var ops := OperatorList(trim, negativeMatch, percEnabled, removeBadCh);
            var a := if trim then 1 else 0;
            var b := a + (if negativeMatch then 1 else 0);
            var c := b + (if percEnabled then 1 else 0);
            Rank(ops[i]) == (if i < a then 0 else if i < b then 1 else if i == b then 2 else if i < c + 1 then 3 else 4)
  {
  }

  // ---------------------------------------------------------------------
  // Specification of a parse
  // ---------------------------------------------------------------------

  /** The pre-passes of `ops`, in order, from `s` and the flags `f`; the
      first one that throws ends the parse. */
  function PreFold(ops: seq<Operator>, cfg: Config, s: string, f: Flags): Result<(string, Flags)>
    decreases |ops|
  {
    if ops == [] then Success((s, f))
    else
      var r := PreFold(ops[..|ops| - 1], cfg, s, f);
      if r.Failure? then r else ParseStage(ops[|ops| - 1], cfg, r.value.0, r.value.1)
  }

  /** The post-passes of `ops`, in order. */
  function PostFold(ops: seq<Operator>, cfg: Config, v: Parsed, f: Flags): Parsed
    decreases |ops|
  {
    if ops == [] then v else PostStage(ops[|ops| - 1], cfg, PostFold(ops[..|ops| - 1], cfg, v, f), f)
  }

  /** What `parseNumberSimple` computes with the operator list `ops`. */
  function ParseSpec(ops: seq<Operator>, cfg: Config, s: string): Result<Parsed>
  {
    var r := PreFold(ops, cfg, s, Flags(false, false));
    if r.Failure? then Failure(r.error) else Success(PostFold(ops, cfg, Parsed(r.value.0, None), r.value.1))
  }

  /** The pre-passes up to `ops[i]` are those up to `ops[i - 1]` and then
      `ops[i]`'s. */
  lemma PreFoldPrefix(ops: seq<Operator>, i: nat, cfg: Config, s: string, f: Flags)
    requires i < |ops|
    ensures PreFold(ops[..i + 1], cfg, s, f)
         == (var r := PreFold(ops[..i], cfg, s, f); if r.Failure? then r else ParseStage(ops[i], cfg, r.value.0, r.value.1))
  {
    assert ops[..i + 1][..i] == ops[..i];
  }

  /** Once a pre-pass throws, the parse throws that error. */
  lemma {:induction false} PreFoldFailure(ops: seq<Operator>, i: nat, cfg: Config, s: string, f: Flags)
    requires i <= |ops| && PreFold(ops[..i], cfg, s, f).Failure?
    ensures PreFold(ops, cfg, s, f) == PreFold(ops[..i], cfg, s, f)
    decreases |ops| - i
  {
    if i < |ops| {
      assert ops[..i + 1][..i] == ops[..i];
      PreFoldFailure(ops, i + 1, cfg, s, f);
      assert ops[..|ops|] == ops;
    } else {
      assert ops[..i] == ops;
    }
  }

  /** The whole parse with the operators `compileOperators` builds from the
      same options, stage by stage: trim, strip the negative sign, clean
      the separators (or throw), take the text before the last `%`, drop
      the bad characters, then put the sign back and record the percentage
      places. */
  function Pipeline(cfg: Config, s: string): Result<Parsed>
  {
    var t1 := if cfg.trim then TrimText(s) else s;
    var neg := cfg.negativeMatch && NegativeMatch(t1).Some?;
    var t2 := if neg then NegativeMatch(t1).value else t1;
    var t3 := FormattedParse(t2, cfg.groupStr, cfg.decimalStr, cfg.strict, cfg.removeBadCh);
    if t3.Failure? then Failure(t3.error)
    else
      var perc := cfg.percEnabled && PercentMatch(t3.value).Some?;
      var t4 := if perc then PercentMatch(t3.value).value else t3.value;
      var t5 := if cfg.removeBadCh then KeepNumeric(t4) else t4;
      var text := if neg then "-" + t5 else t5;
      Success(Parsed(text, if perc then Some(PercentPlaces(text, cfg.decimalStr)) else None))
  }

  function ConfigList(cfg: Config): seq<Operator>
  {
    OperatorList(cfg.trim, cfg.negativeMatch, cfg.percEnabled, cfg.removeBadCh)
  }

  lemma PreFoldSnoc(ops: seq<Operator>, op: Operator, cfg: Config, s: string, f: Flags)
    ensures PreFold(ops + [op], cfg, s, f)
         == (var r := PreFold(ops, cfg, s, f); if r.Failure? then r else ParseStage(op, cfg, r.value.0, r.value.1))
  {
    assert (ops + [op])[..|ops|] == ops;
  }

  lemma PostFoldSnoc(ops: seq<Operator>, op: Operator, cfg: Config, v: Parsed, f: Flags)
    ensures PostFold(ops + [op], cfg, v, f) == PostStage(op, cfg, PostFold(ops, cfg, v, f), f)
  {
    assert (ops + [op])[..|ops|] == ops;
  }

  /** Running an optional stage that is switched off changes nothing. */
  lemma FoldSkip(ops: seq<Operator>, flag: bool, op: Operator, cfg: Config, s: string, v: Parsed, f: Flags)
    ensures PreFold(ops + (if flag then [op] else []), cfg, s, f)
         == (var r := PreFold(ops, cfg, s, f); if r.Failure? || !flag then r else ParseStage(op, cfg, r.value.0, r.value.1))
    ensures PostFold(ops + (if flag then [op] else []), cfg, v, f)
         == (if flag then PostStage(op, cfg, PostFold(ops, cfg, v, f), f) else PostFold(ops, cfg, v, f))
  {
    if flag {
      PreFoldSnoc(ops, op, cfg, s, f);
      PostFoldSnoc(ops, op, cfg, v, f);
    } else {
      assert ops + [] == ops;
    }
  }

  /** The operators in front of `FormattedNumber`. */
  function HeadList(cfg: Config): seq<Operator>
  {
    (if cfg.trim then [Trim] else []) + (if cfg.negativeMatch then [NegativeNumber] else [])
  }

  /** The list `compileOperators` builds is the head, `FormattedNumber`,
      then the optional tail. */
  lemma ConfigListSplit(cfg: Config)
    ensures ConfigList(cfg) == ((HeadList(cfg) + [FormattedNumber]) + (if cfg.percEnabled then [Percentage] else []))
                               + (if cfg.removeBadCh then [BadChars] else [])
  {
  }

  /** The pre-passes of the head: trim, then move a leading `-` out. */
  lemma PreFoldHead(cfg: Config, s: string)
    ensures var t1 := if cfg.trim then TrimText(s) else s;
            var neg := cfg.negativeMatch && NegativeMatch(t1).Some?;
            PreFold(HeadList(cfg), cfg, s, Flags(false, false))
            == Success((if neg then NegativeMatch(t1).value else t1, Flags(neg, false)))
  {
    var f0 := Flags(false, false);
    var l1 := if cfg.trim then [Trim] else [];
    FoldSkip([], cfg.trim, Trim, cfg, s, Parsed(s, None), f0);
    assert [] + l1 == l1;
    FoldSkip(l1, cfg.negativeMatch, NegativeNumber, cfg, s, Parsed(s, None), f0);
  }

  /** The pre-passes of the tail, once `FormattedNumber` has produced `t`:
      the text before the last `%`, then the bad characters dropped. */
  lemma PreFoldTail(ops: seq<Operator>, cfg: Config, s: string, t: string, neg: bool)
    requires PreFold(ops, cfg, s, Flags(false, false)) == Success((t, Flags(neg, false)))
    ensures var perc := cfg.percEnabled && PercentMatch(t).Some?;
            var t4 := if perc then PercentMatch(t).value else t;
            PreFold((ops + (if cfg.percEnabled then [Percentage] else [])) + (if cfg.removeBadCh then [BadChars] else []),
                    cfg, s, Flags(false, false))
            == Success((if cfg.removeBadCh then KeepNumeric(t4) else t4, Flags(neg, perc)))
  {
    var f0 := Flags(false, false);
    var l4 := ops + (if cfg.percEnabled then [Percentage] else []);
    FoldSkip(ops, cfg.percEnabled, Percentage, cfg, s, Parsed(s, None), f0);
    FoldSkip(l4, cfg.removeBadCh, BadChars, cfg, s, Parsed(s, None), f0);
  }

  /** A throw of `FormattedNumber` ends the parse. */
  lemma PreFoldTailFailure(ops: seq<Operator>, cfg: Config, s: string)
    requires PreFold(ops, cfg, s, Flags(false, false)).Failure?
    ensures PreFold((ops + (if cfg.percEnabled then [Percentage] else [])) + (if cfg.removeBadCh then [BadChars] else []),
                    cfg, s, Flags(false, false))
            == PreFold(ops, cfg, s, Flags(false, false))
  {
    var f0 := Flags(false, false);
    var l4 := ops + (if cfg.percEnabled then [Percentage] else []);
    FoldSkip(ops, cfg.percEnabled, Percentage, cfg, s, Parsed(s, None), f0);
    FoldSkip(l4, cfg.removeBadCh, BadChars, cfg, s, Parsed(s, None), f0);
  }

  /** The pre-passes of the list `compileOperators` builds, in closed form. */
  lemma PreFoldList(cfg: Config, s: string)
    ensures var t1 := if cfg.trim then TrimText(s) else s;
            var neg := cfg.negativeMatch && NegativeMatch(t1).Some?;
            var t2 := if neg then NegativeMatch(t1).value else t1;
            var t3 := FormattedParse(t2, cfg.groupStr, cfg.decimalStr, cfg.strict, cfg.removeBadCh);
            var r := PreFold(ConfigList(cfg), cfg, s, Flags(false, false));
            (t3.Failure? ==> r == Failure(t3.error))
            && (t3.Success? ==>
                  var perc := cfg.percEnabled && PercentMatch(t3.value).Some?;
                  var t4 := if perc then PercentMatch(t3.value).value else t3.value;
                  r == Success((if cfg.removeBadCh then KeepNumeric(t4) else t4, Flags(neg, perc))))
  {
    var f0 := Flags(false, false);
    var t1 := if cfg.trim then TrimText(s) else s;
    var neg := cfg.negativeMatch && NegativeMatch(t1).Some?;
    var t2 := if neg then NegativeMatch(t1).value else t1;
    var t3 := FormattedParse(t2, cfg.groupStr, cfg.decimalStr, cfg.strict, cfg.removeBadCh);
    var l3 := HeadList(cfg) + [FormattedNumber];
    ConfigListSplit(cfg);
    PreFoldHead(cfg, s);
    PreFoldSnoc(HeadList(cfg), FormattedNumber, cfg, s, f0);
    if t3.Failure? {
      assert PreFold(l3, cfg, s, f0) == Failure(t3.error);
      PreFoldTailFailure(l3, cfg, s);
    } else {
      assert PreFold(l3, cfg, s, f0) == Success((t3.value, Flags(neg, false)));
      PreFoldTail(l3, cfg, s, t3.value, neg);
    }
  }

  /** The post-passes of the list `compileOperators` builds, in closed form. */
  lemma PostFoldList(cfg: Config, v: Parsed, f: Flags)
    requires v.percentPlaces.None?
    ensures var text := if cfg.negativeMatch && f.isNegative then "-" + v.text else v.text;
            PostFold(ConfigList(cfg), cfg, v, f)
            == Parsed(text, if cfg.percEnabled && f.isPerc then Some(PercentPlaces(text, cfg.decimalStr)) else None)
  {
    var l1 := if cfg.trim then [Trim] else [];
    var l2 := l1 + (if cfg.negativeMatch then [NegativeNumber] else []);
    var l3 := l2 + [FormattedNumber];
    var l4 := l3 + (if cfg.percEnabled then [Percentage] else []);
    var l5 := l4 + (if cfg.removeBadCh then [BadChars] else []);
    assert l5 == ConfigList(cfg);
    FoldSkip([], cfg.trim, Trim, cfg, v.text, v, f);
    assert [] + l1 == l1;
    FoldSkip(l1, cfg.negativeMatch, NegativeNumber, cfg, v.text, v, f);
    PostFoldSnoc(l2, FormattedNumber, cfg, v, f);
    FoldSkip(l3, cfg.percEnabled, Percentage, cfg, v.text, v, f);
    FoldSkip(l4, cfg.removeBadCh, BadChars, cfg, v.text, v, f);
  }

  /** The engine, run on the operator list built from the same options,
      is the stage-by-stage pipeline. */
  lemma ParseIsPipeline(cfg: Config, s: string)
    ensures ParseSpec(ConfigList(cfg), cfg, s) == Pipeline(cfg, s)
  {
    PreFoldList(cfg, s);
    var r := PreFold(ConfigList(cfg), cfg, s, Flags(false, false));
    if r.Success? {
      PostFoldList(cfg, Parsed(r.value.0, None), r.value.1);
    }
  }

  /** The default options: `.` and `,`, not strict, trimming, no bad
      character removal, the negative pattern, no percentages. */
  const DefaultConfig := Config('.', ',', false, true, false, true, false)

  /** With the default options a parse never throws: the text is trimmed,
      a leading `-` is moved out and put back, and the commas are dropped. */
  lemma ParseDefaults(s: string)
    ensures var t1 := TrimText(s);
            var m := NegativeMatch(t1);
            ParseSpec(ConfigList(DefaultConfig), DefaultConfig, s)
            == Success(Parsed(if m.Some? then "-" + RemoveChar(m.value, ',') else RemoveChar(t1, ','), None))
  {
    ParseIsPipeline(DefaultConfig, s);
  }

  /** Strict mode without `removeBadCh` throws on every input. */
  lemma StrictAlwaysThrows(cfg: Config, s: string)
    requires cfg.strict && !cfg.removeBadCh
    ensures ParseSpec(ConfigList(cfg), cfg, s).Failure?
  {
    ParseIsPipeline(cfg, s);
    var t1 := if cfg.trim then TrimText(s) else s;
    var neg := cfg.negativeMatch && NegativeMatch(t1).Some?;
    var t2 := if neg then NegativeMatch(t1).value else t1;
    StrictMode(t2, cfg.groupStr, cfg.decimalStr);
  }

  /** The parsed text of a negative input is the parsed text of its
      magnitude with one `-` in front, with or without percentages. When
      trimming is on, the magnitude must neither start nor end with white
      space: `Trim` runs before `NegativeNumber`, so the space in "- 5" is
      kept while the one in " 5" is cut. */
  lemma ParseNegative(cfg: Config, s: string)
    requires cfg.negativeMatch
    requires NoLineTerminator(s) && |s| >= 2 && s[0] == '-' && s[1] != '-'
    requires cfg.trim ==> !IsSpace(s[1]) && !IsSpace(s[|s| - 1])
    ensures var m := ParseSpec(ConfigList(cfg), cfg, s[1..]);
            var n := ParseSpec(ConfigList(cfg), cfg, s);
            m.Success? <==> n.Success?
    ensures var m := ParseSpec(ConfigList(cfg), cfg, s[1..]);
            var n := ParseSpec(ConfigList(cfg), cfg, s);
            m.Success? ==> n.value.text == "-" + m.value.text
  {
    ParseIsPipeline(cfg, s);
    ParseIsPipeline(cfg, s[1..]);
    var u := s[1..];
    if cfg.trim {
      assert !IsSpace(s[0]) && u[0] == s[1] && u[|u| - 1] == s[|s| - 1];
      TrimUntrimmed(s);
      TrimUntrimmed(u);
    }
    NegativeRoundTrip(s, u);
    assert NoLineTerminator(u);
    NegativeRoundTrip(u, u[1..]);
    assert NegativeMatch(u).None?;
  }

  /** Under the defaults the space after the `-` survives, while the same
      space in front of the magnitude is trimmed away. */
  lemma ParseNegativeSpaced()
    ensures ParseSpec(ConfigList(DefaultConfig), DefaultConfig, "- 5") == Success(Parsed("- 5", None))
    ensures ParseSpec(ConfigList(DefaultConfig), DefaultConfig, " 5") == Success(Parsed("5", None))
  {
    SpacedNegative();
    SpacedMagnitude();
  }

  lemma SpacedNegative()
    ensures ParseSpec(ConfigList(DefaultConfig), DefaultConfig, "- 5") == Success(Parsed("- 5", None))
  {
    var s, u := "- 5", " 5";
    ParseDefaults(s);
    assert !IsSpace(s[0]) && !IsSpace(s[2]);
    TrimUntrimmed(s);
    assert NoLineTerminator(s);
    assert s == "-" + u;
    NegativeRoundTrip(s, u);
    assert u[1..][1..] == [];
    assert RemoveChar(u, ',') == u;
  }

  lemma SpacedMagnitude()
    ensures ParseSpec(ConfigList(DefaultConfig), DefaultConfig, " 5") == Success(Parsed("5", None))
  {
    var u, t := " 5", "5";
    ParseDefaults(u);
    assert IsSpace(u[0]) && !IsSpace(u[1]);
    assert SpaceRunEnd(u, 0) == 1;
    assert SpaceRunStart(u, 1, 2) == 2;
    assert TrimText(u) == t;
    assert NegativeMatch(t).None?;
    assert t[1..] == [];
    assert RemoveChar(t, ',') == t;
  }

  // ---------------------------------------------------------------------
  // The objects
  // ---------------------------------------------------------------------

  /** `parseOperators`: the list of operators, filled by `add`. */
  class ParseOperators {
    var operators: seq<Operator>

    constructor ()
      ensures operators == []
    {
      operators := [];
    }

    method Add(op: Operator)
      modifies this
      ensures operators == old(operators) + [op]
    {
      operators := operators + [op];
    }
  }

  /** `parseNumberSimpleOptions`. The negative and percent patterns are the
      default ones; `negativeMatch` says whether the negative pattern is set. */
  class ParseOptions {
    var decimalStr: char
    var groupStr: char
    var strict: bool
    var trim: bool
    var removeBadCh: bool
    var negativeMatch: bool
    var percEnabled: bool
    var operatorsCached: ParseOperators?
    var roundingDecimalPlaces: int
    var roundingMode: int

    /** The values the modules read during a parse. */
    function Config(): Config
      reads this
    {
      ParseStages.Config(decimalStr, groupStr, strict, trim, removeBadCh, negativeMatch, percEnabled)
    }

    constructor ()
      ensures Config() == DefaultConfig
      ensures operatorsCached == null && roundingDecimalPlaces == -1 && roundingMode == 0
    {
      decimalStr, groupStr := '.', ',';
      strict, trim, removeBadCh := false, true, false;
      negativeMatch, percEnabled := true, false;
      operatorsCached := null;
      roundingDecimalPlaces, roundingMode := -1, 0;
    }

    /** `specifyAll` through `specifyRemoveBadCh`: each given value replaces
        its field (the cached operators are not rebuilt). */
    method SpecifyAll(decimalStr: Option<char>, groupStr: Option<char>, strict: Option<bool>,
                      trim: Option<bool>, removeBadCh: Option<bool>)
      modifies this`decimalStr, this`groupStr, this`strict, this`trim, this`removeBadCh
      ensures this.decimalStr == (if decimalStr.Some? then decimalStr.value else old(this.decimalStr))
      ensures this.groupStr == (if groupStr.Some? then groupStr.value else old(this.groupStr))
      ensures this.strict == (if strict.Some? then strict.value else old(this.strict))
      ensures this.trim == (if trim.Some? then trim.value else old(this.trim))
      ensures this.removeBadCh == (if removeBadCh.Some? then removeBadCh.value else old(this.removeBadCh))
    {
      if decimalStr.Some? {
        this.decimalStr := decimalStr.value;
      }
      if groupStr.Some? {
        this.groupStr := groupStr.value;
      }
      if strict.Some? {
        this.strict := strict.value;
      }
      if trim.Some? {
        this.trim := trim.value;
      }
      if removeBadCh.Some? {
        this.removeBadCh := removeBadCh.value;
      }
    }

    /** `specifyPerc` with the default pattern. */
    method SpecifyPerc(enabled: bool)
      modifies this`percEnabled
      ensures percEnabled == enabled
    {
      percEnabled := enabled;
    }

    /** `specifyRounding` (the type checks are left out). */
    method SpecifyRounding(roundingMode: int, decimalPlaces: Option<int>)
      modifies this`roundingMode, this`roundingDecimalPlaces
      ensures this.roundingMode == roundingMode
      ensures roundingDecimalPlaces == (if decimalPlaces.Some? then decimalPlaces.value else old(roundingDecimalPlaces))
    {
      if decimalPlaces.Some? {
        roundingDecimalPlaces := decimalPlaces.value;
      }
      this.roundingMode := roundingMode;
    }

    /** `compileOperators`: the cached list is returned as it is, unless
        there is none or a rebuild is asked for; then a fresh list is built
        from the current flags and cached. */
    method CompileOperators(rebuild: bool) returns (ops: ParseOperators)
      modifies this`operatorsCached
      ensures operatorsCached == ops
      ensures old(operatorsCached) == null || rebuild ==>
                fresh(ops) && ops.operators == OperatorList(trim, negativeMatch, percEnabled, removeBadCh)
      ensures old(operatorsCached) != null && !rebuild ==> ops == old(operatorsCached)
    {
      if operatorsCached == null || rebuild {
        var built := new ParseOperators();
        if trim {
          built.Add(Trim);
        }
        ghost var l1 := built.operators;
        if negativeMatch {
          built.Add(NegativeNumber);
        }
        ghost var l2 := built.operators;
        built.Add(FormattedNumber);
        ghost var l3 := built.operators;
        if percEnabled {
          built.Add(Percentage);
        }
        ghost var l4 := built.operators;
        if removeBadCh {
          built.Add(BadChars);
        }
        assert l3 == l2 + [FormattedNumber];
        assert l4 == l3 + (if percEnabled then [Percentage] else []);
        assert built.operators == l4 + (if removeBadCh then [BadChars] else []);
        assert l2 == l1 + (if negativeMatch then [NegativeNumber] else []);
        assert l1 == (if trim then [Trim] else []);
        operatorsCached := built;
      }
      return operatorsCached;
    }
  }

  /** `parseContext`: the options of the call and the flags the modules
      raise (the logging flag and the library handle are left out). */
  class ParseContext {
    const options: ParseOptions
    var isNegative: bool
    var isPerc: bool
    var isPost: bool

    constructor (options: ParseOptions)
      ensures this.options == options
      ensures !isNegative && !isPerc && !isPost
    {
      this.options := options;
      isNegative, isPerc, isPost := false, false, false;
    }

    function Flags(): Flags
      reads this
    {
      ParseStages.Flags(isNegative, isPerc)
    }

    /** The `parse` of module `op`: the new text, or the Error it throws;
        `NegativeNumber` and `Percentage` raise their flag on a match. */
    method Parse(op: Operator, origValue: string, currentValue: string) returns (r: Result<string>)
      modifies this`isNegative, this`isPerc
      ensures var s := ParseStage(op, options.Config(), currentValue, old(Flags()));
              (s.Failure? ==> r == Failure(s.error) && Flags() == old(Flags()))
              && (s.Success? ==> r == Success(s.value.0) && Flags() == s.value.1)
    {
      var step := ParseStage(op, options.Config(), currentValue, Flags());
      if step.Failure? {
        return Failure(step.error);
      }
      isNegative, isPerc := step.value.1.isNegative, step.value.1.isPerc;
      return Success(step.value.0);
    }

    /** The `postParse` of module `op`: only `NegativeNumber` and
        `Percentage` read the flags. */
    method PostParse(op: Operator, origValue: string, currentValue: Parsed) returns (r: Parsed)
      ensures r == PostStage(op, options.Config(), currentValue, Flags())
    {
      r := PostStage(op, options.Config(), currentValue, Flags());
    }
  }

  /** The pre-pass loop of `parseNumberSimple`: each operator's `parse`
      on the text so far; a throw ends the loop. */
  method ParseAll(context: ParseContext, ops: seq<Operator>, numberString: string) returns (r: Result<string>)
    requires context.Flags() == Flags(false, false)
    modifies context`isNegative, context`isPerc
    ensures var p := PreFold(ops, context.options.Config(), numberString, Flags(false, false));
            (p.Failure? ==> r == Failure(p.error))
            && (p.Success? ==> r == Success(p.value.0) && context.Flags() == p.value.1)
  {
    var cfg := context.options.Config();
    var newNumberString := numberString;
    var i := 0;
    while i < |ops|
      invariant 0 <= i <= |ops|
      invariant context.options.Config() == cfg
      invariant PreFold(ops[..i], cfg, numberString, Flags(false, false)) == Success((newNumberString, context.Flags()))
    {
      var step := context.Parse(ops[i], numberString, newNumberString);
      PreFoldPrefix(ops, i, cfg, numberString, Flags(false, false));
      if step.Failure? {
        PreFoldFailure(ops, i + 1, cfg, numberString, Flags(false, false));
        return Failure(step.error);
      }
      newNumberString := step.value;
      i := i + 1;
    }
    assert ops[..i] == ops;
    return Success(newNumberString);
  }

  /** The post-pass loop of `parseNumberSimple`. */
  method PostParseAll(context: ParseContext, ops: seq<Operator>, numberString: string, text: string) returns (value: Parsed)
    ensures value == PostFold(ops, context.options.Config(), Parsed(text, None), context.Flags())
  {
    var cfg := context.options.Config();
    value := Parsed(text, None);
    var i := 0;
    while i < |ops|
      invariant 0 <= i <= |ops|
      invariant PostFold(ops[..i], cfg, Parsed(text, None), context.Flags()) == value
    {
      value := context.PostParse(ops[i], numberString, value);
      assert ops[..i + 1][..i] == ops[..i];
      i := i + 1;
    }
    assert ops[..i] == ops;
  }

  /** `parseNumberSimple`, up to the text handed to `Number`: the operators
      come from `compileOperators(false)`, so a list cached before the
      options changed is used as it is, with the current option values. */
  method ParseNumberSimple(numberString: string, options: ParseOptions) returns (r: Result<Parsed>)
    modifies options`operatorsCached
    ensures options.operatorsCached != null
    ensures old(options.operatorsCached) == null ==>
              options.operatorsCached.operators == ConfigList(options.Config())
    ensures old(options.operatorsCached) != null ==> options.operatorsCached == old(options.operatorsCached)
    ensures r == ParseSpec(options.operatorsCached.operators, options.Config(), numberString)
  {
    var context := new ParseContext(options);
    var operators := options.CompileOperators(false);
    var pre := ParseAll(context, operators.operators, numberString);
    if pre.Failure? {
      return Failure(pre.error);
    }
    context.isPost := true;
    var value := PostParseAll(context, operators.operators, numberString, pre.value);
    return Success(value);
  }
}
