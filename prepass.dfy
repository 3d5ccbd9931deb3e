/** The context pre-pass of `convertToPegon`: each rule of `specialRules`
    rewrites its digraph to one glyph where the digraph is directly followed
    by a lower-case vowel, and the rules run one after another in list order.
    Each `String.replace` with a global regular expression `/xy(?=[aeiou])/g`
    is written out as a left-to-right scan. */
module PrePass {
  import opened Glyphs

  /** The regular expression of `rule` matches at the start of `s`: the digraph
      followed by a vowel, which the lookahead inspects but does not consume. */
  predicate MatchesAt(rule: SpecialRule, s: string) {
    |s| >= 3 && s[0] == rule.first && s[1] == rule.second && IsLatinVowel(s[2])
  }

  /** `s.replace(/xy(?=[aeiou])/g, glyph)`: scan left to right; at a match emit
      the glyph and continue after the digraph, otherwise copy one character. */
  function ReplaceBeforeVowel(s: string, rule: SpecialRule): (r: string)
    ensures |r| <= |s|
    decreases |s|
  {
    if s == [] then []
    else if MatchesAt(rule, s) then [rule.glyph] + ReplaceBeforeVowel(s[2..], rule)
    else [s[0]] + ReplaceBeforeVowel(s[1..], rule)
  }

  /** `rules.forEach(rule => result = result.replace(...))`: the rules applied
      in list order, the last rule applied to the result of the others. */
  function ApplyRules(rules: seq<SpecialRule>, s: string): (r: string)
    ensures |r| <= |s|
    decreases |rules|
  {
    if rules == [] then s
    else ReplaceBeforeVowel(ApplyRules(rules[..|rules| - 1], s), rules[|rules| - 1])
  }

  /** The pre-pass as `convertToPegon` runs it. */
  function ApplySpecialRules(text: string): (r: string)
    ensures |r| <= |text|
  {
    ApplyRules(SpecialRules, text)
  }

  /** The digraph of a rule starts with a consonant, has two different letters,
      and its glyph is neither of them nor a vowel. */
  predicate WellFormed(rule: SpecialRule) {
    !IsLatinVowel(rule.first) && rule.first != rule.second &&
    !IsLatinVowel(rule.glyph) && rule.glyph != rule.first && rule.glyph != rule.second
  }

  lemma {:induction false} SpecialRulesWellFormed()
    ensures forall i :: 0 <= i < |SpecialRules| ==> WellFormed(SpecialRules[i])
    ensures forall i, j :: 0 <= i < j < |SpecialRules| ==> SpecialRules[i].glyph != SpecialRules[j].glyph
  {
  }

  // ----- The inverse: expanding glyphs back to their digraphs -----

  /** Replaces every occurrence of the rule's glyph by its digraph. */
  function Expand(s: string, rule: SpecialRule): string
    decreases |s|
  {
    if s == [] then []
    else (if s[0] == rule.glyph then [rule.first, rule.second] else [s[0]]) + Expand(s[1..], rule)
  }

  /** Undoes `ApplyRules`: expands the last rule first. */
  function ExpandRules(rules: seq<SpecialRule>, s: string): string
    decreases |rules|
  {
    if rules == [] then s
    else ExpandRules(rules[..|rules| - 1], Expand(s, rules[|rules| - 1]))
  }

  /** Head of one replace pass: its first character is the input's first
      character, or the glyph when the rule matches there. */
  lemma {:induction false} ReplaceHead(s: string, rule: SpecialRule)
    requires s != []
    ensures ReplaceBeforeVowel(s, rule) != []
    ensures MatchesAt(rule, s) ==> ReplaceBeforeVowel(s, rule)[0] == rule.glyph
    ensures !MatchesAt(rule, s) ==> ReplaceBeforeVowel(s, rule)[0] == s[0]
  {
  }

  /** A replace pass only introduces the rule's glyph. */
  lemma {:induction false} ReplaceCharacters(s: string, rule: SpecialRule, c: char)
    requires c in ReplaceBeforeVowel(s, rule)
    ensures c in s || c == rule.glyph
    decreases |s|
  {
    if s == [] {
    } else if MatchesAt(rule, s) {
      if c != rule.glyph {
        ReplaceCharacters(s[2..], rule, c);
      }
    } else if c != s[0] {
      ReplaceCharacters(s[1..], rule, c);
    }
  }

  /** Nothing is lost: when the glyph does not already occur in the text,
      expanding it again gives back the text. */
  lemma {:induction false} ExpandReplace(s: string, rule: SpecialRule)
    requires rule.glyph !in s
    ensures Expand(ReplaceBeforeVowel(s, rule), rule) == s
    decreases |s|
  {
    if s == [] {
    } else if MatchesAt(rule, s) {
      var rest := ReplaceBeforeVowel(s[2..], rule);
      assert ([rule.glyph] + rest)[1..] == rest;
      ExpandReplace(s[2..], rule);
      assert s == [s[0], s[1]] + s[2..];
    } else {
      var rest := ReplaceBeforeVowel(s[1..], rule);
      assert ([s[0]] + rest)[1..] == rest;
      ExpandReplace(s[1..], rule);
      assert s == [s[0]] + s[1..];
    }
  }

  /** The characters of the pre-pass output come from the text or are glyphs of the rules. */
  lemma {:induction false} ApplyRulesCharacters(rules: seq<SpecialRule>, s: string, c: char)
    requires c in ApplyRules(rules, s)
    ensures c in s || exists i :: 0 <= i < |rules| && c == rules[i].glyph
    decreases |rules|
  {
    if rules != [] {
      var init := rules[..|rules| - 1];
      ReplaceCharacters(ApplyRules(init, s), rules[|rules| - 1], c);
      if c != rules[|rules| - 1].glyph {
        ApplyRulesCharacters(init, s, c);
        if c !in s {
          var i :| 0 <= i < |init| && c == init[i].glyph;
          assert c == rules[i].glyph;
        }
      }
    }
  }

  /** The rules undone in reverse order give back the text, provided no glyph
      of a rule occurs in it and the glyphs are pairwise distinct. */
  lemma {:induction false} ExpandRulesRoundTrip(rules: seq<SpecialRule>, s: string)
    requires forall i :: 0 <= i < |rules| ==> rules[i].glyph !in s
    requires forall i, j :: 0 <= i < j < |rules| ==> rules[i].glyph != rules[j].glyph
    ensures ExpandRules(rules, ApplyRules(rules, s)) == s
    decreases |rules|
  {
    if rules != [] {
      var init, last := rules[..|rules| - 1], rules[|rules| - 1];
      var before := ApplyRules(init, s);
      if last.glyph in before {
        ApplyRulesCharacters(init, s, last.glyph);
      }
      ExpandReplace(before, last);
      ExpandRulesRoundTrip(init, s);
    }
  }

  /** The pre-pass loses nothing: on text free of the rules' glyphs (any Latin
      text), expanding the glyphs back in reverse rule order restores it. */
  lemma {:induction false} ApplySpecialRulesRoundTrip(text: string)
    requires forall i :: 0 <= i < |SpecialRules| ==> SpecialRules[i].glyph !in text
    ensures ExpandRules(SpecialRules, ApplySpecialRules(text)) == text
  {
    SpecialRulesWellFormed();
    ExpandRulesRoundTrip(SpecialRules, text);
  }

  /** A rule changes nothing in text that lacks the second letter of its digraph. */
  lemma {:induction false} ReplaceWithoutDigraph(s: string, rule: SpecialRule)
    requires rule.second !in s
    ensures ReplaceBeforeVowel(s, rule) == s
    decreases |s|
  {
    if s != [] {
      assert s[1..] == [] || s[1] == s[1..][0];
      ReplaceWithoutDigraph(s[1..], rule);
      assert s == [s[0]] + s[1..];
    }
  }

  /** Text in which no rule's second letter occurs passes the pre-pass unchanged. */
  lemma {:induction false} ApplyRulesWithoutDigraphs(rules: seq<SpecialRule>, s: string)
    requires forall j :: 0 <= j < |rules| ==> rules[j].second !in s
    ensures ApplyRules(rules, s) == s
    decreases |rules|
  {
    if rules != [] {
      ApplyRulesWithoutDigraphs(rules[..|rules| - 1], s);
      ReplaceWithoutDigraph(s, rules[|rules| - 1]);
    }
  }

  /** A match needs the digraph and a vowel, so text of fewer than three
      characters passes a replace unchanged. */
  lemma {:induction false} ReplaceShort(s: string, rule: SpecialRule)
    requires |s| < 3
    ensures ReplaceBeforeVowel(s, rule) == s
    decreases |s|
  {
    if s != [] {
      ReplaceShort(s[1..], rule);
      assert [s[0]] + s[1..] == s;
    }
  }

  /** Text of fewer than three characters passes the whole pre-pass unchanged,
      whichever letters it holds. */
  lemma {:induction false} ApplyRulesShort(rules: seq<SpecialRule>, s: string)
    requires |s| < 3
    ensures ApplyRules(rules, s) == s
    decreases |rules|
  {
    if rules != [] {
      ApplyRulesShort(rules[..|rules| - 1], s);
      ReplaceShort(s, rules[|rules| - 1]);
    }
  }

  // ----- Where a replace pass fires -----

  /** Every occurrence of `glyph` in `r` is directly followed by a lower-case vowel. */
  predicate FollowedByVowel(r: string, glyph: char) {
    forall i :: 0 <= i < |r| && r[i] == glyph ==> i + 1 < |r| && IsLatinVowel(r[i + 1])
  }

  /** No position of `r` holds the rule's digraph directly followed by a vowel. */
  predicate NoMatchIn(r: string, rule: SpecialRule) {
    forall i :: 0 <= i && i + 2 < |r| ==> !MatchesAt(rule, r[i..])
  }

  /** Only before a vowel: every glyph the pass introduces is directly followed
      by a lower-case vowel. */
  lemma {:induction false} GlyphOnlyBeforeVowel(s: string, rule: SpecialRule)
    requires WellFormed(rule) && rule.glyph !in s
    ensures FollowedByVowel(ReplaceBeforeVowel(s, rule), rule.glyph)
    decreases |s|
  {
    var r := ReplaceBeforeVowel(s, rule);
    if s == [] {
    } else if MatchesAt(rule, s) {
      var rest := ReplaceBeforeVowel(s[2..], rule);
      GlyphOnlyBeforeVowel(s[2..], rule);
      ReplaceHead(s[2..], rule);
      forall i | 0 <= i < |r| && r[i] == rule.glyph
        ensures i + 1 < |r| && IsLatinVowel(r[i + 1])
      {
        if i > 0 {
          assert r[i] == rest[i - 1];
          assert r[i + 1] == rest[i];
        } else {
          assert s[2..][0] == s[2] && !MatchesAt(rule, s[2..]);
          assert r[1] == rest[0] == s[2];
        }
      }
    } else {
      var rest := ReplaceBeforeVowel(s[1..], rule);
      GlyphOnlyBeforeVowel(s[1..], rule);
      forall i | 0 <= i < |r| && r[i] == rule.glyph
        ensures i + 1 < |r| && IsLatinVowel(r[i + 1])
      {
        assert i > 0 && r[i] == rest[i - 1];
        assert FollowedByVowel(rest, rule.glyph);
        assert r[i + 1] == rest[i];
      }
    }
  }

  /** Every occurrence is rewritten: after the pass no digraph of the rule
      directly followed by a vowel remains. */
  lemma {:induction false} NoMatchRemains(s: string, rule: SpecialRule)
    requires WellFormed(rule)
    ensures NoMatchIn(ReplaceBeforeVowel(s, rule), rule)
    decreases |s|
  {
    var r := ReplaceBeforeVowel(s, rule);
    if s == [] {
    } else if MatchesAt(rule, s) {
      var rest := ReplaceBeforeVowel(s[2..], rule);
      NoMatchRemains(s[2..], rule);
      forall i | 0 <= i && i + 2 < |r| ensures !MatchesAt(rule, r[i..]) {
        if i > 0 {
          assert r[i..] == rest[i - 1..];
          assert NoMatchIn(rest, rule) && 0 <= i - 1 && i - 1 + 2 < |rest|;
        } else {
          assert r[i..][0] == rule.glyph;
        }
      }
    } else {
      var rest := ReplaceBeforeVowel(s[1..], rule);
      NoMatchRemains(s[1..], rule);
      forall i | 0 <= i && i + 2 < |r| ensures !MatchesAt(rule, r[i..]) {
        if i > 0 {
          assert r[i..] == rest[i - 1..];
          assert NoMatchIn(rest, rule) && 0 <= i - 1 && i - 1 + 2 < |rest|;
        } else if r[0] == rule.first && r[1] == rule.second {
          // rest starts with the second letter, so the pass did not fire on s[1..]
          ReplaceHead(s[1..], rule);
          assert r[1] == rest[0];
          assert !MatchesAt(rule, s[1..]) && s[1] == rule.second;
          assert s[1..][1..] == s[2..];
          assert rest == [s[1]] + ReplaceBeforeVowel(s[2..], rule);
          ReplaceHead(s[2..], rule);
          assert s[2..][0] == s[2];
          assert r[2] == ReplaceBeforeVowel(s[2..], rule)[0];
          assert r[2] == s[2] || r[2] == rule.glyph;
          assert !IsLatinVowel(r[2]) by {
            assert IsLatinVowel(r[2]) ==> MatchesAt(rule, s);
          }
          assert r[i..][2] == r[2];
        }
      }
    }
  }
}
