/** `formatMaskCompiled`: a mask string over `0` (mandatory digit), `#`
    (optional digit) and literal characters, compiled to its number of digit
    slots and applied to a digit string left-to-right (decimal part),
    right-to-left (held literals), or right-to-left in repeating groups
    (integer part, thousands separators).

    Each walk of the source is a method with a loop, proved equal to a
    closed-form description of its output (`ForwardText`, `ReverseText`,
    `GroupFrom`). */
module Masks {
  import opened Common

  predicate IsPlaceholder(c: char) { c == '0' || c == '#' }

  function Min(a: int, b: int): int { if a <= b then a else b }

  /** The number of placeholders in `m[j..]`. */
  function CountFrom(m: string, j: nat): (n: nat)
    requires j <= |m|
    ensures n <= |m| - j
    decreases |m| - j
  {
    if j == |m| then 0 else (if IsPlaceholder(m[j]) then 1 else 0) + CountFrom(m, j + 1)
  }

  lemma {:induction false} CountFromZero(m: string, j: nat)
    requires j <= |m|
    ensures CountFrom(m, j) == 0 <==> forall p :: j <= p < |m| ==> !IsPlaceholder(m[p])
    decreases |m| - j
  {
    if j < |m| {
      CountFromZero(m, j + 1);
    }
  }

  /** What `compile` stores in `maskDigitSize`: the number of `0`/`#`
      characters, or the TypeError of reading `.length` of the `null` that
      `match` returns when there is none. */
  function DigitSlots(m: string): (r: Result<nat>)
    ensures r.Success? <==> exists p :: 0 <= p < |m| && IsPlaceholder(m[p])
    ensures r.Success? ==> 1 <= r.value <= |m|
    ensures r.Failure? ==> r.error == NullLength
  {
    CountFromZero(m, 0);
    var n := CountFrom(m, 0);
    if n == 0 then Failure(NullLength) else Success(n)
  }

  /** The special case of both walks: a result of exactly "0" is dropped
      when the mask's last character is `#` (`charAt(-1)` of an empty mask
      is "", so an empty mask never collapses). */
  function CollapseZero(m: string, r: string): string
  {
    if r == "0" && |m| > 0 && m[|m| - 1] == '#' then "" else r
  }

  // ---------------------------------------------------------------------
  // Forward walk (`_applyMask`)
  // ---------------------------------------------------------------------

  /** The first `|s|` mask positions, each placeholder replaced by the digit
      at the same position and each literal kept (its digit is skipped). */
  function Overlay(m: string, s: string): (r: string)
    requires |s| <= |m|
    ensures |r| == |s|
  {
    seq(|s|, i requires 0 <= i < |s| => if IsPlaceholder(m[i]) then s[i] else m[i])
  }

  /** The first position at or after `j` that does not hold a `0`. */
  function ZeroRunEnd(m: string, j: nat): (e: nat)
    requires j <= |m|
    ensures j <= e <= |m|
    ensures forall p :: j <= p < e ==> m[p] == '0'
    ensures e < |m| ==> m[e] != '0'
    decreases |m| - j
  {
    if j == |m| || m[j] != '0' then j else ZeroRunEnd(m, j + 1)
  }

  /** Where the forward walk stops once the digits have run out at `n`:
      zeros are padded, a `#` ends the walk, a literal is written and ends it. */
  function TailEnd(m: string, n: nat): (t: nat)
    requires n <= |m|
    ensures n <= t <= |m|
  {
    var e := ZeroRunEnd(m, n);
    if e < |m| && m[e] != '#' then e + 1 else e
  }

  /** The output of the forward walk, in closed form: the overlaid digits,
      then the slice of the mask that the padding phase writes. */
  function ForwardText(m: string, s: string): string
    requires |s| <= |m|
  {
    CollapseZero(m, Overlay(m, s) + m[|s|..TailEnd(m, |s|)])
  }

  /** `_applyMask`: throws when the mask is shorter than the digits. */
  function ApplyMaskSpec(m: string, s: string): Result<string>
  {
    if |m| < |s| then Failure(MaskTooShort) else Success(ForwardText(m, s))
  }

  // ---------------------------------------------------------------------
  // Reverse walk (`_applyReverseMask`)
  // ---------------------------------------------------------------------

  /** What the reverse walk writes for mask position `p` when it reaches it:
      a placeholder with `k` placeholders to its right takes the `k`-th digit
      from the right while there is one; every other position (a literal, or
      a `0` after the digits ran out) is written as the mask character. */
  function Render(m: string, s: string, p: nat): char
    requires p < |m|
  {
    var k := CountFrom(m, p + 1);
    if IsPlaceholder(m[p]) && k < |s| then s[|s| - 1 - k] else m[p]
  }

  function RenderRange(m: string, s: string, lo: nat, hi: nat): (r: string)
    requires lo <= hi <= |m|
    ensures |r| == hi - lo
  {
    seq(hi - lo, k requires 0 <= k < hi - lo => Render(m, s, lo + k))
  }

  /** The left end of the reverse walk over `m[..j]`: just after the
      right-most `#` reached when no digit is left for it (`n` digits), or 0. */
  function WalkStart(m: string, n: nat, j: nat): (w: nat)
    requires j <= |m|
    ensures w <= j
    ensures 0 < w ==> m[w - 1] == '#' && CountFrom(m, w) >= n
    decreases j
  {
    if j == 0 then 0
    else if m[j - 1] == '#' && CountFrom(m, j) >= n then j
    else WalkStart(m, n, j - 1)
  }

  /** The first placeholder at or after `j`, or `|m|`. */
  function FirstPlaceholder(m: string, j: nat): (z: nat)
    requires j <= |m|
    ensures j <= z <= |m|
    ensures z < |m| ==> IsPlaceholder(m[z])
    decreases |m| - j
  {
    if j == |m| || IsPlaceholder(m[j]) then j else FirstPlaceholder(m, j + 1)
  }

  lemma {:induction false} FirstPlaceholderSkips(m: string, j: nat)
    requires j <= |m|
    ensures forall p :: j <= p < FirstPlaceholder(m, j) ==> !IsPlaceholder(m[p])
    decreases |m| - j
  {
    if j < |m| && !IsPlaceholder(m[j]) {
      FirstPlaceholderSkips(m, j + 1);
    }
  }

  /** The output of the reverse walk, in closed form. The walk covers
      `m[w..]`; the literals in front of its left-most placeholder `z` are
      still held when the walk ends and are written only when `areMore`. */
  function ReverseText(m: string, s: string, areMore: bool): string
  {
    var w := WalkStart(m, |s|, |m|);
    var z := FirstPlaceholder(m, w);
    CollapseZero(m, RenderRange(m, s, if areMore then w else z, |m|))
  }

  /** `_applyReverseMask`: throws when the mask is shorter than the digits. */
  function ReverseMaskSpec(m: string, s: string, areMore: bool): Result<string>
  {
    if |m| < |s| then Failure(MaskTooShort) else Success(ReverseText(m, s, areMore))
  }

  // ---------------------------------------------------------------------
  // Repeating reverse walk (the chunk loop of `apply`)
  // ---------------------------------------------------------------------

  /** The chunk loop of `apply` entered at `pos`: the chunk `s[lo..pos]` of
      at most `size` digits goes through the reverse walk, with `areMore`
      when digits remain to its left; an empty chunk result stops the loop;
      each result is placed in front of the ones already built. */
  function GroupFrom(m: string, size: nat, s: string, pos: int): string
    requires 1 <= size
    requires pos <= |s|
    decreases if pos < 0 then 0 else pos + 1
  {
    if pos < 0 then ""
    else
      var lo := if pos - size < 0 then 0 else pos - size;
      var chunk := ReverseText(m, s[lo..pos], lo > 0);
      if chunk == "" then "" else GroupFrom(m, size, s, pos - size) + chunk
  }

  /** `apply` on a mask object with the given state. */
  function ApplySpec(m: string, compiled: bool, repeating: bool, reversed: bool, size: int, s: string): Result<string>
    requires compiled && repeating && reversed ==> 1 <= size
  {
    if !compiled then Failure(MaskNotCompiled)
    else if repeating then
      (if reversed then Success(GroupFrom(m, size, s, |s|)) else Success(""))
    else if reversed then ReverseMaskSpec(m, s, false)
    else ApplyMaskSpec(m, s)
  }

  // ---------------------------------------------------------------------
  // Helper lemmas for the loop proofs
  // ---------------------------------------------------------------------

  lemma AppendAssoc(a: string, b: string, c: string)
    ensures (a + b) + c == a + (b + c)
  {
  }

  /** One turn of the chunk loop: a non-empty chunk result goes in front of
      what was built, and the loop goes on `size` digits further left. */
  lemma GroupFromStep(m: string, size: nat, s: string, pos: nat, chunk: string, built: string)
    requires 1 <= size && pos <= |s|
    requires chunk == ReverseText(m, s[(if pos < size then 0 else pos - size)..pos], pos > size)
    ensures chunk == "" ==> GroupFrom(m, size, s, pos) == ""
    ensures chunk != "" ==> GroupFrom(m, size, s, pos) + built == GroupFrom(m, size, s, pos - size) + (chunk + built)
  {
    AppendAssoc(GroupFrom(m, size, s, pos - size), chunk, built);
  }

  lemma RenderRangeSplit(m: string, s: string, a: nat, b: nat, c: nat)
    requires a <= b <= c <= |m|
    ensures RenderRange(m, s, a, c) == RenderRange(m, s, a, b) + RenderRange(m, s, b, c)
  {
    var l, r1, r2 := RenderRange(m, s, a, c), RenderRange(m, s, a, b), RenderRange(m, s, b, c);
    forall k | 0 <= k < c - a
      ensures l[k] == (r1 + r2)[k]
    {
      if k < b - a {
        assert l[k] == Render(m, s, a + k) == r1[k];
      } else {
        assert l[k] == Render(m, s, b + (k - (b - a))) == r2[k - (b - a)];
      }
    }
  }

  lemma RenderRangeLiterals(m: string, s: string, a: nat, b: nat)
    requires a <= b <= |m|
    requires forall p :: a <= p < b ==> !IsPlaceholder(m[p])
    ensures RenderRange(m, s, a, b) == m[a..b]
  {
    var l := RenderRange(m, s, a, b);
    forall k | 0 <= k < b - a
      ensures l[k] == m[a..b][k]
    {
      assert l[k] == Render(m, s, a + k);
    }
  }

  lemma RenderRangeCons(m: string, s: string, a: nat, b: nat)
    requires a < b <= |m|
    ensures RenderRange(m, s, a, b) == [Render(m, s, a)] + RenderRange(m, s, a + 1, b)
  {
    RenderRangeSplit(m, s, a, a + 1, b);
    assert RenderRange(m, s, a, a + 1)[0] == Render(m, s, a);
  }

  /** The state of the reverse walk once it has processed `m[j..]` and has
      not stopped: the digit position, the text written and the literals held. */
  ghost predicate ReverseWalked(m: string, s: string, j: nat, digitPos: int, result: string, hold: string)
  {
    j <= |m| &&
    digitPos == |s| - 1 - Min(|s|, CountFrom(m, j)) &&
    WalkStart(m, |s|, |m|) == WalkStart(m, |s|, j) &&
    result == RenderRange(m, s, FirstPlaceholder(m, j), |m|) &&
    hold == m[j..FirstPlaceholder(m, j)]
  }

  /** A placeholder reached while digits remain takes the next digit from
      the right, after the held literals are written. */
  lemma ReverseDigitStep(m: string, s: string, i: nat, digitPos: int, result: string, hold: string)
    requires ReverseWalked(m, s, i + 1, digitPos, result, hold)
    requires i < |m| && 0 <= digitPos && IsPlaceholder(m[i])
    ensures digitPos < |s|
    ensures ReverseWalked(m, s, i, digitPos - 1, [s[digitPos]] + (hold + result), "")
  {
    var j := i + 1;
    var z := FirstPlaceholder(m, j);
    FirstPlaceholderSkips(m, j);
    RenderRangeLiterals(m, s, j, z);
    RenderRangeSplit(m, s, j, z, |m|);
    RenderRangeCons(m, s, i, |m|);
  }

  /** A `0` reached after the digits ran out pads a zero, after the held
      literals are written. */
  lemma ReverseZeroStep(m: string, s: string, i: nat, digitPos: int, result: string, hold: string)
    requires ReverseWalked(m, s, i + 1, digitPos, result, hold)
    requires i < |m| && digitPos < 0 && m[i] == '0'
    ensures ReverseWalked(m, s, i, digitPos, "0" + (hold + result), "")
  {
    var j := i + 1;
    var z := FirstPlaceholder(m, j);
    FirstPlaceholderSkips(m, j);
    RenderRangeLiterals(m, s, j, z);
    RenderRangeSplit(m, s, j, z, |m|);
    RenderRangeCons(m, s, i, |m|);
  }

  /** A literal is held. */
  lemma ReverseHoldStep(m: string, s: string, i: nat, digitPos: int, result: string, hold: string)
    requires ReverseWalked(m, s, i + 1, digitPos, result, hold)
    requires i < |m| && !IsPlaceholder(m[i])
    ensures ReverseWalked(m, s, i, digitPos, result, [m[i]] + hold)
  {
  }

  /** A `#` reached after the digits ran out is where the walk stops. */
  lemma ReverseStopStep(m: string, s: string, i: nat, digitPos: int, result: string, hold: string)
    requires ReverseWalked(m, s, i + 1, digitPos, result, hold)
    requires i < |m| && digitPos < 0 && m[i] == '#'
    ensures WalkStart(m, |s|, |m|) == i + 1
  {
  }

  /** When the walk has stopped (or reached the mask's left end), the held
      literals written when `areMore`, and the zero collapse, give `ReverseText`. */
  lemma ReverseWalkEnd(m: string, s: string, j: nat, digitPos: int, result: string, hold: string, areMore: bool)
    requires ReverseWalked(m, s, j, digitPos, result, hold)
    requires WalkStart(m, |s|, |m|) == j
    ensures ReverseText(m, s, areMore) == CollapseZero(m, if areMore && hold != "" then hold + result else result)
  {
    var z := FirstPlaceholder(m, j);
    FirstPlaceholderSkips(m, j);
    RenderRangeLiterals(m, s, j, z);
    RenderRangeSplit(m, s, j, z, |m|);
  }

  // ---------------------------------------------------------------------
  // The mask object
  // ---------------------------------------------------------------------

  /** `formatMaskCompiled`. `maskStr` is a constant: `apply` uses the string
      the object was built with. The unused `roundingMode` field is left out. */
  class FormatMask {
    const maskStr: string
    var repeating: bool
    var reversed: bool
    var compiled: bool
    var maskDigitSize: int

    /** Once compiled, the digit size is the mask's placeholder count. */
    ghost predicate Valid()
      reads this
    {
      compiled ==> maskDigitSize == CountFrom(maskStr, 0) && 1 <= maskDigitSize
    }

    constructor (maskStr: string)
      ensures this.maskStr == maskStr
      ensures !repeating && !reversed && !compiled && maskDigitSize == -1
      ensures Valid()
    {
      this.maskStr := maskStr;
      repeating, reversed := false, false;
      compiled, maskDigitSize := false, -1;
    }

    /** `compile`: stores the placeholder count and marks the mask compiled,
        or throws (a TypeError) before changing anything. */
    method Compile() returns (o: Outcome)
      requires Valid()
      modifies this`maskDigitSize, this`compiled
      ensures Valid()
      ensures o.Pass? <==> DigitSlots(maskStr).Success?
      ensures o.Pass? ==> compiled && maskDigitSize == DigitSlots(maskStr).value
      ensures o.Fail? ==> o.error == NullLength && unchanged(this)
    {
      var slots := DigitSlots(maskStr);
      if slots.Failure? {
        return Fail(slots.error);
      }
      maskDigitSize := slots.value;
      compiled := true;
      return Pass;
    }

    /** `apply`. */
    method Apply(s: string) returns (r: Result<string>)
      requires Valid()
      ensures r == ApplySpec(maskStr, compiled, repeating, reversed, maskDigitSize, s)
    {
      if !compiled {
        return Failure(MaskNotCompiled);
      }
      if repeating {
        var result := "";
        if reversed {
          result := ApplyRepeatingReversed(s);
        }
        return Success(result);
      } else if reversed {
        r := ApplyReverseMask(maskStr, s, false);
      } else {
        r := ApplyMask(maskStr, s);
      }
    }

    /** The chunk loop of `apply` for a repeating, reversed mask: `pos` steps
        down from the end of the digits by `maskDigitSize`. */
    method ApplyRepeatingReversed(s: string) returns (result: string)
      requires Valid() && compiled
      ensures result == GroupFrom(maskStr, maskDigitSize, s, |s|)
    {
      result := "";
      var size := maskDigitSize;
      var strLen := |s|;
      var pos := strLen;
      ghost var total := GroupFrom(maskStr, size, s, strLen);
      assert total + result == total;
      while pos >= 0
        invariant pos <= strLen
        invariant total == GroupFrom(maskStr, size, s, pos) + result
        decreases pos + size
      {
        var bottomBound := if pos - size < 0 then 0 else pos - size;
        var subDigits := s[bottomBound..pos];
        assert |subDigits| <= size <= |maskStr|;
        var chunk := ApplyReverseMask(maskStr, subDigits, bottomBound > 0);
        assert chunk == Success(ReverseText(maskStr, subDigits, bottomBound > 0));
        var newStr := chunk.value;
        GroupFromStep(maskStr, size, s, pos, newStr, result);
        if newStr == "" {
          assert total == "" + result;
          break;
        }
        assert total == GroupFrom(maskStr, size, s, pos - size) + (newStr + result);
        result := newStr + result;
        pos := pos - size;
      }
      assert total == "" + result;
    }

    /** `_applyMask`: mask and digits walked together left to right. */
    method ApplyMask(mask: string, s: string) returns (r: Result<string>)
      ensures r == ApplyMaskSpec(mask, s)
    {
      if |mask| < |s| {
        return Failure(MaskTooShort);
      }
      var result := "";
      var strLen := |s|;
      var i := 0;
      while i < |mask|
        invariant 0 <= i <= |mask|
        invariant i <= strLen ==> result == Overlay(mask, s)[..i]
        invariant strLen < i ==> ZeroRunEnd(mask, strLen) >= i
        invariant strLen < i ==> result == Overlay(mask, s) + mask[strLen..i]
      {
        var maskCh := mask[i];
        if i < strLen {
          var digit := s[i];
          if maskCh == '0' || maskCh == '#' {
            result := result + [digit];
          } else {
            result := result + [maskCh];
          }
        } else {
          if maskCh == '0' {
            result := result + ['0'];
          } else if maskCh == '#' {
            assert ZeroRunEnd(mask, strLen) == i;
            break;
          } else {
            assert ZeroRunEnd(mask, strLen) == i;
            result := result + [maskCh];
            break;
          }
        }
        i := i + 1;
      }
      assert result == Overlay(mask, s) + mask[strLen..TailEnd(mask, strLen)];
      if result == "0" && |mask| > 0 && mask[|mask| - 1] == '#' {
        result := "";
      }
      return Success(result);
    }

    /** `_applyReverseMask`: mask and digits walked together right to left;
        literals are held until a digit or a zero pad follows them, or until
        the end when `areMore`. A `null` `holdChars` is the empty string here,
        so writing the held literals when none are held writes nothing. */
    method ApplyReverseMask(mask: string, s: string, areMore: bool) returns (r: Result<string>)
      ensures r == ReverseMaskSpec(mask, s, areMore)
    {
      if |mask| < |s| {
        return Failure(MaskTooShort);
      }
      var result := "";
      var digitPos := |s| - 1;
      var holdChars := "";
      var i := |mask| - 1;
      while i >= 0
        invariant -1 <= i < |mask|
        invariant ReverseWalked(mask, s, i + 1, digitPos, result, holdChars)
      {
        var maskCh := mask[i];
        if digitPos >= 0 {
          if maskCh == '0' || maskCh == '#' {
            ReverseDigitStep(mask, s, i, digitPos, result, holdChars);
            var digit := s[digitPos];
            digitPos := digitPos - 1;
            result := holdChars + result;
            holdChars := "";
            result := [digit] + result;
          } else {
            ReverseHoldStep(mask, s, i, digitPos, result, holdChars);
            holdChars := [maskCh] + holdChars;
          }
        } else {
          if maskCh == '0' {
            ReverseZeroStep(mask, s, i, digitPos, result, holdChars);
            result := holdChars + result;
            holdChars := "";
            result := "0" + result;
          } else if maskCh == '#' {
            ReverseStopStep(mask, s, i, digitPos, result, holdChars);
            break;
          } else {
            ReverseHoldStep(mask, s, i, digitPos, result, holdChars);
            holdChars := [maskCh] + holdChars;
          }
        }
        assert ReverseWalked(mask, s, i, digitPos, result, holdChars);
        i := i - 1;
      }
      ReverseWalkEnd(mask, s, i + 1, digitPos, result, holdChars, areMore);
      ghost var written := if areMore && holdChars != "" then holdChars + result else result;
      if areMore && holdChars != "" {
        result := holdChars + result;
      }
      assert result == written;
      if result == "0" && |mask| > 0 && mask[|mask| - 1] == '#' {
        result := "";
      }
      assert result == ReverseText(mask, s, areMore);
      return Success(result);
    }
  }
}
