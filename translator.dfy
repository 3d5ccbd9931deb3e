/** The translator object: its harakah switch, the conversion `convertToPegon`
    that chains the pre-pass, the scan loop, the two text post-passes and the
    optional harakah pass, and the Arabic-script test. */
module Translator {
  import opened Glyphs
  import opened PrePass
  import opened Segmenter
  import opened Format
  import opened Harakah

  /** What `convertToPegon` returns for `text` with the harakah switch set to
      `showHarakah`. The output never holds two adjacent whitespace characters,
      with or without harakah. */
  function Convert(text: string, showHarakah: bool): (r: string)
    ensures Collapsed(r)
  {
    var scanned := HandleVowelPatterns(Scan(ApplySpecialRules(text)));
    var formatted := FormatWords(scanned);
    FormatWordsCollapsed(scanned);
    if showHarakah then
      WithHarakahKeepsCollapsed(formatted);
      WithHarakah(formatted)
    else formatted
  }

  /** `containsArabicScript`: some character lies in one of the Arabic blocks. */
  function ContainsArabicScript(text: string): (found: bool)
    ensures found <==> exists i :: 0 <= i < |text| && IsArabicScript(text[i])
    decreases |text|
  {
    if text == [] then false
    else if IsArabicScript(text[0]) then true
    else
      var found := ContainsArabicScript(text[1..]);
      assert forall i :: 1 <= i < |text| ==> text[i] == text[1..][i - 1];
      found
  }

  class PegonTranslator {
    /** Whether `convertToPegon` adds harakah marks. */
    var showHarakah: bool

    constructor()
      ensures !showHarakah
    {
      showHarakah := false;
    }

    /** The harakah toggle's change handler stores the new setting. */
    method SetShowHarakah(checked: bool)
      modifies this
      ensures showHarakah == checked
    {
      showHarakah := checked;
    }

    /** `convertToPegon`: the pre-pass rules one after another, then the scan
        loop that tries a 3-, 2- and 1-character key at each position, then
        `handleVowelPatterns`, `formatWords` and, when switched on, `addHarakah`. */
    method ConvertToPegon(text: string) returns (output: string)
      ensures output == Convert(text, showHarakah)
    {
      var result := text;
      for k := 0 to |SpecialRules|
        invariant result == ApplyRules(SpecialRules[..k], text)
      {
        assert SpecialRules[..k + 1][..k] == SpecialRules[..k];
        result := ReplaceBeforeVowel(result, SpecialRules[k]);
      }
      assert SpecialRules[..|SpecialRules|] == SpecialRules;

      output := "";
      var i := 0;
      while i < |result|
        invariant 0 <= i <= |result|
        invariant output + Scan(result[i..]) == Scan(result)
        decreases |result| - i
      {
        ghost var before, start := output, i;
        ghost var emitted: string := [];
        var found := false;
        if i < |result| - 2 {
          match Lookup(result[i..i + 3]) {
            case Some(glyph) =>
              output, emitted := output + glyph, glyph;
              i := i + 3;
              found := true;
            case None =>
          }
        }
        if !found && i < |result| - 1 {
          match Lookup(result[i..i + 2]) {
            case Some(glyph) =>
              output, emitted := output + glyph, glyph;
              i := i + 2;
              found := true;
              assert Advances(result, start, 2, emitted);
            case None =>
          }
        }
        if !found {
          var piece := SingleCharacterBranch(result[i]);
          output, emitted := output + piece, piece;
          i := i + 1;
          assert Advances(result, start, 1, emitted);
        }
        assert output + Scan(result[i..]) == Scan(result) by {
          ScanAdvance(result, start, i - start, emitted);
          Associates(before, emitted, Scan(result[i..]));
        }
      }
      assert result[i..] == [] && output + [] == output;

      output := HandleVowelPatterns(output);
      output := FormatWords(output);
      if showHarakah {
        output := AddHarakah(output);
      }
    }

    /** The single-character branch of the scan loop: the character's table
        glyph, else a space for a space, the digit for a digit, the `punctMap`
        entry for a character of the punctuation class, and the character
        itself otherwise. */
    method SingleCharacterBranch(c: char) returns (piece: string)
      ensures piece == Single(c)
    {
      match Lookup([c]) {
        case Some(glyph) =>
          piece := glyph;
        case None =>
          if c == ' ' {
            piece := " ";
          } else if '0' <= c <= '9' {
            piece := [c];
          } else if c in PunctuationClass {
            piece := if c in PunctMap then PunctMap[c] else [c];
          } else {
            piece := [c];
          }
      }
    }

    /** `addHarakah`: the seven replaces of `HarakahRules`, one after another
        in source order. */
    method AddHarakah(text: string) returns (result: string)
      ensures result == WithHarakah(text)
    {
      result := text;
      AnnotatedByNoRules(text);
      for k := 0 to |HarakahRules|
        invariant result == Annotated(HarakahRules[..k], text)
      {
        HarakahStep(k, result, text);
        result := Replace(HarakahRules[k], result);
      }
      assert HarakahRules[..|HarakahRules|] == HarakahRules;
      AnnotatedAsReference(text);
    }
  }

  // ----- Properties of the whole conversion -----

  /** Switching harakah on only adds marks: with the harakah marks removed,
      both settings give the same text. */
  lemma {:induction false} HarakahOnlyAddsMarks(text: string)
    ensures Strip(Convert(text, true)) == Strip(Convert(text, false))
  {
    OnlyInsertsMarks(Convert(text, false));
  }

  /** Running `addHarakah` on the output of a conversion with harakah changes nothing. */
  lemma {:induction false} HarakahOutputIsStable(text: string)
    ensures WithHarakah(Convert(text, true)) == Convert(text, true)
  {
    WithHarakahIdempotent(Convert(text, false));
  }

  /** Text that starts with a table key scans to text that contains Arabic script. */
  lemma {:induction false} ScanOfKeyIsArabic(s: string)
    requires s != [] && (SingleGlyph(s[0]).Some? || (|s| >= 2 && PairGlyph(s[0], s[1]).Some?))
    ensures ContainsArabicScript(Scan(s))
  {
    var n := MatchLength(s);
    LongestMatch(s);
    if n == 2 {
      assert s[..2] == [s[0], s[1]];
    }
    GlyphsAreArabic(s[..n]);
    assert s[..n][0] == s[0];
    assert Scan(s) == Emit(s[..n]) + Scan(s[n..]);
    assert Scan(s)[0] == Emit(s[..n])[0];
  }

  /** Empty text converts to empty text, with harakah on or off. */
  lemma {:induction false} ConvertEmpty(showHarakah: bool)
    ensures Convert([], showHarakah) == []
  {
  }

  /** A single letter or digit with a table entry converts to exactly its
      table glyph, with harakah on or off: the pre-pass cannot match fewer
      than three characters, the scan takes the single-character branch, and
      a lone consonant gets no harakah mark. */
  lemma {:induction false} ConvertSingleKey(c: char, showHarakah: bool)
    requires SingleGlyph(c).Some?
    ensures Convert([c], showHarakah) == SingleGlyph(c).value
  {
    var g := SingleGlyph(c).value;
    assert ApplySpecialRules([c]) == [c] by {
      ApplyRulesShort(SpecialRules, [c]);
    }
    assert Scan([c]) == g by {
      ScanWithoutPairs([c]);
      assert [c][1..] == [];
    }
    assert FormatWords(g) == g by {
      SingleGlyphIsArabic(c);
      FormatWordsFixesCollapsed(g);
    }
    assert WithHarakah(g) == g by {
      assert g[1..] == [];
    }
  }

  /** A doubled consonant converts to one glyph with a shadda. */
  lemma {:induction false} ConvertDoubled()
    ensures Convert("mm", false) == [Mim, Shadda]
  {
    var glyphs := [Mim, Shadda];
    assert ApplySpecialRules("mm") == "mm" by {
      ApplyRulesWithoutDigraphs(SpecialRules, "mm");
    }
    assert Scan("mm") == glyphs by {
      Gemination('m', []);
      assert "mm" == ['m', 'm'] + [];
    }
    assert FormatWords(glyphs) == glyphs by {
      FormatWordsFixesCollapsed(glyphs);
    }
  }

  /** A consonant before a vowel letter: "ba" becomes ba-alif, and with harakah ba-fatha-alif. */
  lemma {:induction false} ConvertSyllable()
    ensures Convert("ba", false) == [Ba, Alif]
    ensures Convert("ba", true) == [Ba, Fatha, Alif]
  {
    var glyphs := [Ba, Alif];
    assert ApplySpecialRules("ba") == "ba" by {
      ApplyRulesWithoutDigraphs(SpecialRules, "ba");
    }
    assert Scan("ba") == glyphs by {
      assert PairGlyph('b', 'a').None?;
      ScanWithoutPairs("ba");
      assert "ba"[1..] == "a";
    }
    assert FormatWords(glyphs) == glyphs by {
      FormatWordsFixesCollapsed(glyphs);
    }
    assert WithHarakah(glyphs) == [Ba, Fatha, Alif] by {
      assert glyphs[1..] == [Alif];
      assert WithHarakah([Alif]) == [Alif];
    }
  }
}
