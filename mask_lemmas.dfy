/** What the mask walks of `formatMaskCompiled` produce on the masks the
    formatter uses: thousands grouping by a repeating `,###`-style mask,
    digit-only decimal masks, and worked examples. */
module MaskLemmas {
  import opened Common
  import opened Masks

  // ---------------------------------------------------------------------
  // Reference definition of digit grouping
  // ---------------------------------------------------------------------

  /** A one-character separator followed by `g` optional digits: `,###` for
      `SepMask(',', 3)`. */
  function SepMask(sep: char, g: nat): (m: string)
    ensures |m| == g + 1
  {
    [sep] + seq(g, _ => '#')
  }

  /** The digits `s` split into groups of `g` from the right, joined by `sep`. */
  function GroupDigits(sep: char, g: nat, s: string): string
    requires 1 <= g
    decreases |s|
  {
    if |s| <= g then s else GroupDigits(sep, g, s[..|s| - g]) + [sep] + s[|s| - g..]
  }

  // ---------------------------------------------------------------------
  // The walks on a separator mask
  // ---------------------------------------------------------------------

  lemma {:induction false} SepMaskCount(sep: char, g: nat, j: nat)
    requires !IsPlaceholder(sep) && 1 <= j <= g + 1
    ensures CountFrom(SepMask(sep, g), j) == g + 1 - j
    decreases g + 1 - j
  {
    if j <= g {
      SepMaskCount(sep, g, j + 1);
    }
  }

  /** The reverse walk of `n < g` digits stops at the `#` just left of the
      last `n` positions. */
  lemma {:induction false} SepMaskWalkShort(sep: char, g: nat, n: nat, j: nat)
    requires !IsPlaceholder(sep) && n < g && g - n + 1 <= j <= g + 1
    ensures WalkStart(SepMask(sep, g), n, j) == g - n + 1
    decreases j
  {
    var m := SepMask(sep, g);
    SepMaskCount(sep, g, j);
    if j > g - n + 1 {
      SepMaskWalkShort(sep, g, n, j - 1);
    }
  }

  /** The reverse walk of `g` digits never stops early: it reaches position 0. */
  lemma {:induction false} SepMaskWalkFull(sep: char, g: nat, j: nat)
    requires !IsPlaceholder(sep) && 1 <= g && j <= g + 1
    ensures WalkStart(SepMask(sep, g), g, j) == 0
    decreases j
  {
    if j > 0 {
      SepMaskCount(sep, g, j);
      SepMaskWalkFull(sep, g, j - 1);
    }
  }

  /** Rendering the `#` positions `lo..g+1` when `n` digits remain puts the
      digits in order. */
  lemma SepMaskDigits(sep: char, g: nat, c: string, lo: nat)
    requires !IsPlaceholder(sep) && 1 <= lo && |c| == g + 1 - lo
    ensures RenderRange(SepMask(sep, g), c, lo, g + 1) == c
  {
    var m := SepMask(sep, g);
    var r := RenderRange(m, c, lo, g + 1);
    forall k | 0 <= k < |c|
      ensures r[k] == c[k]
    {
      SepMaskCount(sep, g, lo + k + 1);
      assert r[k] == Render(m, c, lo + k);
    }
  }

  /** The reverse walk of one chunk of at most `g` digits on `SepMask`: the
      digits, with the separator in front only for a full chunk with more
      digits to its left. */
  lemma SepMaskChunk(sep: char, g: nat, c: string, areMore: bool)
    requires !IsPlaceholder(sep) && 1 <= g && |c| <= g
    ensures ReverseText(SepMask(sep, g), c, areMore)
         == CollapseZero(SepMask(sep, g), (if areMore && |c| == g then [sep] else []) + c)
  {
    if |c| < g {
      SepMaskShortChunk(sep, g, c, areMore);
    } else {
      SepMaskFullChunk(sep, g, c, areMore);
    }
  }

  /** A chunk shorter than `g`: the walk stops at a `#`, so the separator
      is never reached. */
  lemma SepMaskShortChunk(sep: char, g: nat, c: string, areMore: bool)
    requires !IsPlaceholder(sep) && |c| < g
    ensures ReverseText(SepMask(sep, g), c, areMore) == CollapseZero(SepMask(sep, g), c)
  {
    var m := SepMask(sep, g);
    SepMaskWalkShort(sep, g, |c|, g + 1);
    var w := g - |c| + 1;
    assert FirstPlaceholder(m, w) == w;
    SepMaskDigits(sep, g, c, w);
  }

  /** A full chunk: the walk reaches the separator and holds it; it is
      written only when `areMore`. */
  lemma SepMaskFullChunk(sep: char, g: nat, c: string, areMore: bool)
    requires !IsPlaceholder(sep) && 1 <= g && |c| == g
    ensures ReverseText(SepMask(sep, g), c, areMore) == CollapseZero(SepMask(sep, g), (if areMore then [sep] else []) + c)
  {
    var m := SepMask(sep, g);
    SepMaskWalkFull(sep, g, g + 1);
    assert FirstPlaceholder(m, 0) == 1;
    SepMaskDigits(sep, g, c, 1);
    RenderRangeCons(m, c, 0, g + 1);
    SepMaskCount(sep, g, 1);
    assert Render(m, c, 0) == sep;
    if areMore {
      assert ReverseText(m, c, areMore) == CollapseZero(m, [sep] + c);
    } else {
      assert ReverseText(m, c, areMore) == CollapseZero(m, c);
      assert [] + c == c;
    }
  }

  /** The last chunk the loop reaches (the left-most digits) is written
      without a separator. */
  lemma GroupFromFirstChunk(sep: char, g: nat, s: string, pos: nat)
    requires !IsPlaceholder(sep) && 1 <= g && 1 <= pos <= |s| && pos <= g && s[0] != '0'
    ensures GroupFrom(SepMask(sep, g), g, s, pos) == s[..pos]
  {
    var m := SepMask(sep, g);
    var chunk := s[0..pos];
    SepMaskChunk(sep, g, chunk, false);
    assert chunk[0] != '0';
    assert chunk != "0";
    assert [] + chunk == chunk;
    assert ReverseText(m, chunk, false) == chunk;
    if pos - g == 0 {
      SepMaskChunk(sep, g, [], false);
      assert s[0..0] == [];
      assert ReverseText(m, s[0..0], false) == "";
    }
    assert GroupFrom(m, g, s, pos - g) == "";
    assert GroupFrom(m, g, s, pos) == "" + chunk;
  }

  /** A full chunk with digits to its left is written with the separator. */
  lemma GroupFromNextChunk(sep: char, g: nat, s: string, pos: nat)
    requires !IsPlaceholder(sep) && 1 <= g && g < pos <= |s|
    ensures GroupFrom(SepMask(sep, g), g, s, pos)
         == GroupFrom(SepMask(sep, g), g, s, pos - g) + ([sep] + s[pos - g..pos])
  {
    SepMaskChunk(sep, g, s[pos - g..pos], true);
  }

  lemma {:induction false} GroupFromSep(sep: char, g: nat, s: string, pos: nat)
    requires !IsPlaceholder(sep) && 1 <= g && 1 <= pos <= |s| && s[0] != '0'
    ensures GroupFrom(SepMask(sep, g), g, s, pos) == GroupDigits(sep, g, s[..pos])
    decreases pos
  {
    if pos <= g {
      GroupFromFirstChunk(sep, g, s, pos);
    } else {
      GroupFromNextChunk(sep, g, s, pos);
      GroupFromSep(sep, g, s, pos - g);
      GroupDigitsPrefix(sep, g, s, pos);
    }
  }

  /** Grouping the first `pos` digits is grouping the first `pos - g` and
      writing the separator and the next `g`. */
  lemma GroupDigitsPrefix(sep: char, g: nat, s: string, pos: nat)
    requires 1 <= g < pos <= |s|
    ensures GroupDigits(sep, g, s[..pos]) == GroupDigits(sep, g, s[..pos - g]) + ([sep] + s[pos - g..pos])
  {
    var p := s[..pos];
    assert p[..|p| - g] == s[..pos - g];
    assert p[|p| - g..] == s[pos - g..pos];
    AppendAssoc(GroupDigits(sep, g, s[..pos - g]), [sep], s[pos - g..pos]);
  }

  /** The grouping theorem: the repeating reversed walk of `apply` on a
      separator mask groups the digits of a number without leading zeros
      in threes (or `g`s) from the right. */
  lemma Grouping(sep: char, g: nat, s: string)
    requires !IsPlaceholder(sep) && 1 <= g && 1 <= |s| && s[0] != '0'
    ensures CountFrom(SepMask(sep, g), 0) == g
    ensures ApplySpec(SepMask(sep, g), true, true, true, g, s) == Success(GroupDigits(sep, g, s))
  {
    SepMaskCount(sep, g, 1);
    GroupFromSep(sep, g, s, |s|);
    assert s[..|s|] == s;
  }

  /** The integer part "0" formats as the empty string under a separator
      mask: its only chunk collapses to "". */
  lemma GroupingZero(sep: char, g: nat)
    requires !IsPlaceholder(sep) && 1 <= g
    ensures ApplySpec(SepMask(sep, g), true, true, true, g, "0") == Success("")
  {
    SepMaskChunk(sep, g, "0", false);
    assert "0"[0..1] == "0";
  }

  /** Grouping keeps the digits: separators aside, the output is the input. */
  lemma {:induction false} GroupDigitsShape(sep: char, g: nat, s: string)
    requires 1 <= g && 1 <= |s|
    ensures 1 <= |GroupDigits(sep, g, s)|
    ensures GroupDigits(sep, g, s)[|GroupDigits(sep, g, s)| - 1] == s[|s| - 1]
    ensures GroupDigits(sep, g, s)[0] == s[0]
    decreases |s|
  {
    if |s| > g {
      GroupDigitsShape(sep, g, s[..|s| - g]);
    }
  }

  /** The default group mask is the separator mask for `,` and 3. */
  lemma DefaultSepMask()
    ensures SepMask(',', 3) == ",###"
  {
  }

  /** Seven digits make three groups, the first of one digit. */
  lemma GroupSevenDigits()
    ensures GroupDigits(',', 3, "1234567") == "1,234,567"
  {
    assert "1234567"[..4] == "1234" && "1234567"[4..] == "567";
    assert "1234"[..1] == "1" && "1234"[1..] == "234";
  }

  /** Six digits make two full groups. */
  lemma GroupSixDigits()
    ensures GroupDigits(',', 3, "123456") == "123,456"
  {
    assert "123456"[..3] == "123" && "123456"[3..] == "456";
  }

  /** `"1234567"` and `"123456"` under `,###`; `"0"` gives `""`. */
  lemma GroupingExamples()
    ensures ApplySpec(",###", true, true, true, 3, "1234567") == Success("1,234,567")
    ensures ApplySpec(",###", true, true, true, 3, "123456") == Success("123,456")
    ensures ApplySpec(",###", true, true, true, 3, "0") == Success("")
  {
    DefaultSepMask();
    GroupSevenDigits();
    GroupSixDigits();
    Grouping(',', 3, "1234567");
    Grouping(',', 3, "123456");
    GroupingZero(',', 3);
  }

  // ---------------------------------------------------------------------
  // Other modes of `apply`
  // ---------------------------------------------------------------------

  /** `apply` throws exactly when the mask is not compiled, or when a single
      walk gets more digits than the mask has characters; the repeating
      reversed walk never throws (each chunk has at most `size` digits). */
  lemma ApplyFails(m: string, compiled: bool, repeating: bool, reversed: bool, size: int, s: string)
    requires compiled && repeating && reversed ==> 1 <= size
    ensures ApplySpec(m, compiled, repeating, reversed, size, s).Failure?
        <==> !compiled || (!repeating && |m| < |s|)
    ensures !compiled ==> ApplySpec(m, compiled, repeating, reversed, size, s) == Failure(MaskNotCompiled)
    ensures compiled && !repeating && |m| < |s| ==> ApplySpec(m, compiled, repeating, reversed, size, s) == Failure(MaskTooShort)
    ensures compiled && repeating && !reversed ==> ApplySpec(m, compiled, repeating, reversed, size, s) == Success("")
  {
  }

  // ---------------------------------------------------------------------
  // The forward walk on digit-only masks (decimal masks)
  // ---------------------------------------------------------------------

  /** On a mask made only of `0` and `#`, the forward walk writes the digits,
      then pads zeros up to the next `#`, dropping a lone "0" when the mask
      ends in `#`. */
  lemma ForwardDigitMask(m: string, s: string)
    requires |s| <= |m|
    requires forall p :: 0 <= p < |m| ==> IsPlaceholder(m[p])
    ensures ForwardText(m, s) == CollapseZero(m, s + seq(ZeroRunEnd(m, |s|) - |s|, _ => '0'))
  {
    var e := ZeroRunEnd(m, |s|);
    assert TailEnd(m, |s|) == e;
    assert Overlay(m, s) == s;
    assert m[|s|..e] == seq(e - |s|, _ => '0');
  }

  /** The decimal mask `##`: one or two digits are kept, except a lone "0". */
  lemma ForwardOptionalPair(s: string)
    requires |s| <= 2
    ensures ApplyMaskSpec("##", s) == Success(if s == "0" then "" else s)
  {
    ForwardDigitMask("##", s);
    assert ZeroRunEnd("##", |s|) == |s|;
    assert s + seq(0, _ => '0') == s;
  }

  /** A literal in the mask takes the place of the digit at its position:
      that digit is not written. */
  lemma ForwardLiteralDropsDigit(m: string, s: string, i: nat)
    requires |s| <= |m| && i < |s| && !IsPlaceholder(m[i])
    ensures |ForwardText(m, s)| >= |s| ==> ForwardText(m, s)[i] == m[i]
  {
  }

  lemma ForwardExamples()
    ensures ApplyMaskSpec("00", "") == Success("00")
    ensures ApplyMaskSpec("##", "5") == Success("5")
    ensures ApplyMaskSpec("#-#", "123") == Success("1-3")
    ensures ApplyMaskSpec("##", "123") == Failure(MaskTooShort)
  {
    ForwardDigitMask("00", "");
    assert ZeroRunEnd("00", 0) == 2;
    assert "" + seq(2, _ => '0') == "00";
    ForwardOptionalPair("5");
    ForwardLiteralExample();
  }

  /** `"123"` on `#-#`: the literal takes the place of the middle digit. */
  lemma ForwardLiteralExample()
    ensures ForwardText("#-#", "123") == "1-3"
  {
    var o := Overlay("#-#", "123");
    assert o[0] == '1' && o[1] == '-' && o[2] == '3';
    assert o == "1-3";
    assert ZeroRunEnd("#-#", 3) == 3;
    assert "#-#"[3..3] == "";
    assert ForwardText("#-#", "123") == CollapseZero("#-#", o + "");
    assert o + "" == o;
  }

  // ---------------------------------------------------------------------
  // The reverse walk
  // ---------------------------------------------------------------------

  /** Every `#` inside the walked region has fewer than `n` placeholders to
      its right, so it is given a digit. */
  lemma {:induction false} WalkStartIsRightmostStop(m: string, n: nat, j: nat, p: nat)
    requires j <= |m| && WalkStart(m, n, j) <= p < j && m[p] == '#'
    ensures CountFrom(m, p + 1) < n
    decreases j
  {
    if !(m[j - 1] == '#' && CountFrom(m, j) >= n) && p < j - 1 {
      WalkStartIsRightmostStop(m, n, j - 1, p);
    }
  }

  /** Without `areMore`, the reverse walk's output starts at a placeholder
      position: a digit, or a zero pad. Literals left of the left-most
      digit are dropped. */
  lemma ReverseStartsWithDigitOrPad(m: string, s: string)
    requires |s| <= |m| && AllDigits(s)
    ensures var r := ReverseText(m, s, false);
            r != "" ==> IsDigit(r[0])
  {
    var w := WalkStart(m, |s|, |m|);
    var z := FirstPlaceholder(m, w);
    if z < |m| {
      var k := CountFrom(m, z + 1);
      if m[z] == '#' {
        WalkStartIsRightmostStop(m, |s|, |m|, z);
      }
      assert RenderRange(m, s, z, |m|)[0] == Render(m, s, z);
      if k < |s| {
        assert IsDigit(s[|s| - 1 - k]);
      }
    }
  }

  /** With `areMore`, the held literals in front of the walk are written:
      the output with `areMore` is those literals in front of the output
      without it. The one exception is the lone-"0" collapse: when the walk
      itself renders "0" under a trailing `#`, the output without `areMore`
      is empty, while with held literals in front it is not "0" and is kept
      whole. */
  lemma ReverseAreMoreAddsHeld(m: string, s: string)
    ensures var w := WalkStart(m, |s|, |m|);
            var z := FirstPlaceholder(m, w);
            var held := m[w..z];
            var bare := RenderRange(m, s, z, |m|);
            if held != "" && bare == "0" && m[|m| - 1] == '#'
            then ReverseText(m, s, false) == "" && ReverseText(m, s, true) == held + "0"
            else ReverseText(m, s, true) == held + ReverseText(m, s, false)
  {
    var w := WalkStart(m, |s|, |m|);
    var z := FirstPlaceholder(m, w);
    var held := m[w..z];
    var bare := RenderRange(m, s, z, |m|);
    FirstPlaceholderSkips(m, w);
    RenderRangeLiterals(m, s, w, z);
    RenderRangeSplit(m, s, w, z, |m|);
    assert RenderRange(m, s, w, |m|) == held + bare;
    if held != "" {
      assert !IsPlaceholder(held[0]);
      assert (held + bare)[0] == held[0];
      assert held + bare != "0";
    } else {
      assert held + bare == bare;
    }
  }

  lemma ReverseExamples()
    ensures ReverseMaskSpec("#,##0", "5", false) == Success("5")
    ensures ReverseMaskSpec("#,##0", "", false) == Success("0")
    ensures ReverseMaskSpec(",###", "123", true) == Success(",123")
    ensures ReverseMaskSpec("0", "12", false) == Failure(MaskTooShort)
  {
    ReversePadExamples();
    DefaultSepMask();
    SepMaskChunk(',', 3, "123", true);
    assert ReverseText(",###", "123", true) == CollapseZero(",###", ",123");
  }

  /** On `#,##0` the reverse walk of one digit, or of none, stops at the
      `#` left of the last position: the digit, or a zero pad. */
  lemma ReversePadExamples()
    ensures ReverseText("#,##0", "5", false) == "5"
    ensures ReverseText("#,##0", "", false) == "0"
  {
    var m := "#,##0";
    assert CountFrom(m, 5) == 0;
    assert CountFrom(m, 4) == 1;
    assert WalkStart(m, 1, 5) == 4;
    assert WalkStart(m, 0, 5) == 4;
    assert FirstPlaceholder(m, 4) == 4;
    var r1 := RenderRange(m, "5", 4, 5);
    assert r1[0] == Render(m, "5", 4) == '5';
    assert r1 == "5";
    var r0 := RenderRange(m, "", 4, 5);
    assert r0[0] == Render(m, "", 4) == '0';
    assert r0 == "0";
  }
}
