/** Formatting and parsing together: what `parseNumberSimple` reads back
    from the text `formatNumber` writes with the default options of both. */
module RoundTrip {
  import opened Common
  import opened MaskLemmas
  import opened Formatting
  import opened ParseStages
  import opened Parsing

  /** Digits, group separators and points: the alphabet of a formatted
      number without fixes. */
  predicate Formatted(s: string)
  {
    forall k :: 0 <= k < |s| ==> IsDigit(s[k]) || s[k] == ',' || s[k] == '.'
  }

  lemma {:induction false} GroupDigitsAlphabet(s: string)
    requires 1 <= |s| && AllDigits(s)
    ensures Formatted(GroupDigits(',', 3, s))
    decreases |s|
  {
    if |s| > 3 {
      var h := s[..|s| - 3];
      GroupDigitsAlphabet(h);
      var l := GroupDigits(',', 3, h);
      var r := s[|s| - 3..];
      assert GroupDigits(',', 3, s) == l + [','] + r;
      forall k | 0 <= k < |l + [','] + r|
        ensures IsDigit((l + [','] + r)[k]) || (l + [','] + r)[k] == ',' || (l + [','] + r)[k] == '.'
      {
        if k > |l| {
          assert (l + [','] + r)[k] == s[|s| - 3 + (k - |l| - 1)];
        }
      }
    }
  }

  lemma RemoveSeparator(l: string, r: string)
    ensures RemoveChar(l + [','] + r, ',') == RemoveChar(l, ',') + RemoveChar(r, ',')
  {
    var sep: string := [','];
    RemoveCharAppend(l + sep, r, ',');
    RemoveCharAppend(l, sep, ',');
    var none := RemoveChar(sep, ',');
    assert none == [];
    assert RemoveChar(l, ',') + none == RemoveChar(l, ',');
  }

  lemma DigitsWithoutSeparator(s: string)
    requires AllDigits(s)
    ensures RemoveChar(s, ',') == s
  {
    RemoveAbsent(s, ',');
  }

  /** One group more: dropping the separators of `l`, the separator and the
      digits `r` gives the digits of `l` followed by `r`. */
  lemma UngroupStep(l: string, h: string, r: string)
    requires RemoveChar(l, ',') == h && AllDigits(r)
    ensures RemoveChar(l + [','] + r, ',') == h + r
  {
    RemoveSeparator(l, r);
    DigitsWithoutSeparator(r);
  }

  /** Dropping the group separators undoes the grouping. */
  lemma {:induction false} Ungroup(s: string)
    requires 1 <= |s| && AllDigits(s)
    ensures RemoveChar(GroupDigits(',', 3, s), ',') == s
    decreases |s|
  {
    if |s| <= 3 {
      DigitsWithoutSeparator(s);
    } else {
      var h := s[..|s| - 3];
      var r := s[|s| - 3..];
      assert GroupDigits(',', 3, s) == GroupDigits(',', 3, h) + [','] + r;
      Ungroup(h);
      UngroupStep(GroupDigits(',', 3, h), h, r);
      assert h + r == s;
    }
  }

  /** The text a canonical number is written as under the default format
      options: its integer digits grouped in threes (none for "0"), then a
      point and the fraction digits unless the fraction is "0" or empty. */
  function DefaultText(intDigits: string, fracDigits: string): string
    requires 1 <= |intDigits|
  {
    var intText := if intDigits == "0" then "" else GroupDigits(',', 3, intDigits);
    var decText := if fracDigits == "0" then "" else fracDigits;
    if decText == "" then intText else intText + "." + decText
  }

  lemma NotSpace(c: char)
    requires IsDigit(c) || c == ',' || c == '.'
    ensures !IsSpace(c)
  {
  }

  /** Formatted text is neither trimmed nor read as negative. */
  lemma FormattedPlain(s: string)
    requires Formatted(s)
    ensures TrimText(s) == s
    ensures NegativeMatch(s).None?
  {
    FormattedNoSpace(s);
    TrimNoSpace(s);
    if s != [] {
      assert s[0] != '-';
    }
  }

  lemma FormattedNoSpace(s: string)
    requires Formatted(s)
    ensures forall i :: 0 <= i < |s| ==> !IsSpace(s[i])
  {
    forall i | 0 <= i < |s|
      ensures !IsSpace(s[i])
    {
      NotSpace(s[i]);
    }
  }

  lemma DefaultTextAlphabet(intDigits: string, fracDigits: string)
    requires 1 <= |intDigits| && AllDigits(intDigits) && AllDigits(fracDigits)
    ensures Formatted(DefaultText(intDigits, fracDigits))
  {
    var intText := if intDigits == "0" then "" else GroupDigits(',', 3, intDigits);
    var decText := if fracDigits == "0" then "" else fracDigits;
    if intDigits != "0" {
      GroupDigitsAlphabet(intDigits);
    }
    assert Formatted(intText);
    if decText != "" {
      var out := intText + "." + decText;
      forall k | 0 <= k < |out|
        ensures IsDigit(out[k]) || out[k] == ',' || out[k] == '.'
      {
        if k > |intText| {
          assert out[k] == decText[k - |intText| - 1];
        }
      }
    }
  }

  /** Format then parse, both with their default options: a number with a
      canonical integer part and at most two fraction digits is written
      without error, and parsing the text back gives its digits with the
      group separators gone, the point kept, and the zero parts that the
      masks drop still dropped. */
  lemma FormatThenParse(intDigits: string, fracDigits: string)
    requires 1 <= |intDigits| && AllDigits(intDigits) && (intDigits[0] != '0' || intDigits == "0")
    requires AllDigits(fracDigits) && |fracDigits| <= 2
    ensures FormatSpec(",###", "##", ".", Null, Null, intDigits, fracDigits) == Success(DefaultText(intDigits, fracDigits))
    ensures var intPart := if intDigits == "0" then "" else intDigits;
            var decPart := if fracDigits == "0" then "" else fracDigits;
            ParseSpec(ConfigList(DefaultConfig), DefaultConfig, DefaultText(intDigits, fracDigits))
            == Success(Parsed(if decPart == "" then intPart else intPart + "." + decPart, None))
  {
    FormatDefaults(intDigits, fracDigits);
    var out := DefaultText(intDigits, fracDigits);
    UngroupDefaultText(intDigits, fracDigits);
    DefaultTextAlphabet(intDigits, fracDigits);
    FormattedPlain(out);
    ParseDefaults(out);
  }

  /** Dropping the commas from the default text leaves the digits, with a
      point before the fraction. */
  lemma UngroupDefaultText(intDigits: string, fracDigits: string)
    requires 1 <= |intDigits| && AllDigits(intDigits) && AllDigits(fracDigits)
    ensures var intPart := if intDigits == "0" then "" else intDigits;
            var decPart := if fracDigits == "0" then "" else fracDigits;
            RemoveChar(DefaultText(intDigits, fracDigits), ',')
            == if decPart == "" then intPart else intPart + "." + decPart
  {
    var intText := if intDigits == "0" then "" else GroupDigits(',', 3, intDigits);
    var decText := if fracDigits == "0" then "" else fracDigits;
    var intPart := if intDigits == "0" then "" else intDigits;
    if intDigits != "0" {
      Ungroup(intDigits);
    } else {
      assert RemoveChar(intText, ',') == [];
    }
    assert RemoveChar(intText, ',') == intPart;
    DigitsWithoutSeparator(decText);
    if decText != "" {
      RemoveCharAppend(intText + ".", decText, ',');
      RemoveCharAppend(intText, ".", ',');
      assert RemoveChar(".", ',') == ".";
    }
  }
}
