/** The harakah pass `addHarakah`: seven global regular-expression replaces,
    run one after another, that put a vowel mark or a sukun after a consonant.
    Each replace is written out as a left-to-right scan (`Replace`); the pass
    as a whole is proved equal to a single left-to-right pass whose every mark
    is decided on the text before the pass (`WithHarakah`). */
module Harakah {
  import opened Glyphs
  import opened Format

  /** The two lookaheads after the vowel letter: a word boundary (whitespace,
      punctuation, the end, or any character outside U+0627–U+064A), or an
      Arabic letter in U+0628–U+064A. */
  datatype Ahead = Boundary | LetterAhead

  /** One replace of `addHarakah`: a consonant followed by a vowel letter and
      a lookahead gets the vowel's mark, or a consonant followed by a further
      letter gets a sukun. */
  datatype Rewrite = VowelRule(letter: char, mark: char, ahead: Ahead) | SukunRule

  predicate AheadHolds(ahead: Ahead, rest: string) {
    match ahead
    case Boundary =>
      rest == [] || IsSpace(rest[0]) || rest[0] in BoundaryPunctuation || !(Alif <= rest[0] <= Ya)
    case LetterAhead =>
      rest != [] && Ba <= rest[0] <= Ya
  }

  /** The characters of the negative lookahead of the sukun rule. */
  const SukunBlockers: set<char> := {Fatha, Damma, Kasra, Shadda, Alif, Ya, Waw}

  /** The regular expression of `r` matches at the start of `s`. */
  predicate Fires(r: Rewrite, s: string) {
    |s| >= 2 && s[0] in HarakahConsonants &&
    match r
    case VowelRule(letter, _, ahead) => s[1] == letter && AheadHolds(ahead, s[2..])
    case SukunRule =>
      Ba <= s[1] <= Ya && s[1] !in SukunBlockers && !IsSpace(s[1]) && s[1] !in BoundaryPunctuation
  }

  function MarkOf(r: Rewrite): char {
    match r
    case VowelRule(_, mark, _) => mark
    case SukunRule => Sukun
  }

  /** `s.replace(regex, replacement)` for one rewrite: a vowel match consumes
      the consonant and the vowel letter and emits them with the mark between;
      a sukun match consumes the consonant only. */
  function Replace(r: Rewrite, s: string): (t: string)
    ensures |s| <= |t| <= 2 * |s|
    decreases |s|
  {
    if s == [] then []
    else if Fires(r, s) then
      if r.VowelRule? then [s[0], r.mark, s[1]] + Replace(r, s[2..])
      else [s[0], Sukun] + Replace(r, s[1..])
    else [s[0]] + Replace(r, s[1..])
  }

  /** The replaces of `addHarakah`, in the order they run. */
  const HarakahRules: seq<Rewrite> := [
    VowelRule(Alif, Fatha, Boundary), VowelRule(Alif, Fatha, LetterAhead),
    VowelRule(Ya, Kasra, Boundary), VowelRule(Ya, Kasra, LetterAhead),
    VowelRule(Waw, Damma, Boundary), VowelRule(Waw, Damma, LetterAhead),
    SukunRule
  ]

  /** A vowel rule reads one of the three vowel letters and inserts a harakah mark. */
  predicate Proper(r: Rewrite) {
    r.VowelRule? ==> r.letter in {Alif, Ya, Waw} && r.mark in HarakahMarks
  }

  predicate AllProper(rules: seq<Rewrite>) {
    forall i :: 0 <= i < |rules| ==> Proper(rules[i])
  }

  /** The mark of the first rule of `rules` that matches at the start of `s`, if any. */
  function MarkAt(rules: seq<Rewrite>, s: string): string
    decreases |rules|
  {
    if rules == [] then []
    else if Fires(rules[0], s) then [MarkOf(rules[0])]
    else MarkAt(rules[1..], s)
  }

  /** `s` with, after each position, the mark that `rules` give it there. */
  function Annotated(rules: seq<Rewrite>, s: string): string
    decreases |s|
  {
    if s == [] then []
    else [s[0]] + MarkAt(rules, s) + Annotated(rules, s[1..])
  }

  // ----- The reference: one pass, decided on the text before the pass -----

  /** The mark after the consonant at the start of `s`: the vowel's mark when
      a vowel letter follows that is not itself followed by alif, a sukun when
      another letter of U+0628–U+064A follows, and nothing otherwise. */
  function HarakahMark(s: string): (m: string)
    ensures |m| <= 1 && (m != [] ==> m[0] in HarakahMarks)
    ensures m != [] ==> |s| >= 2 && s[0] in HarakahConsonants
  {
    if |s| < 2 || s[0] !in HarakahConsonants then []
    else if s[1] in {Alif, Ya, Waw} then
      if |s| > 2 && s[2] == Alif then []
      else if s[1] == Alif then [Fatha]
      else if s[1] == Ya then [Kasra]
      else [Damma]
    else if Ba <= s[1] <= Ya then [Sukun]
    else []
  }

  /** The text with every harakah mark inserted. */
  function WithHarakah(s: string): string
    decreases |s|
  {
    if s == [] then [] else [s[0]] + HarakahMark(s) + WithHarakah(s[1..])
  }

  // ----- Facts about single rules -----

  /** What a match looks at: the lookahead depends only on the next character. */
  lemma {:induction false} AheadSameHead(ahead: Ahead, x: string, y: string)
    requires x == [] <==> y == []
    requires x != [] ==> x[0] == y[0]
    ensures AheadHolds(ahead, x) <==> AheadHolds(ahead, y)
  {
  }

  lemma {:induction false} MarkAtProper(rules: seq<Rewrite>, s: string)
    requires AllProper(rules)
    ensures MarkAt(rules, s) == [] || (|MarkAt(rules, s)| == 1 && MarkAt(rules, s)[0] in HarakahMarks)
    ensures MarkAt(rules, s) != [] ==> |s| >= 2 && s[0] in HarakahConsonants
    decreases |rules|
  {
    MarkAtNeedsConsonant(rules, s);
    if rules != [] && !Fires(rules[0], s) {
      MarkAtProper(rules[1..], s);
    }
  }

  lemma {:induction false} MarkAtAppend(rules: seq<Rewrite>, r: Rewrite, s: string)
    ensures MarkAt(rules + [r], s) ==
      if MarkAt(rules, s) != [] then MarkAt(rules, s)
      else if Fires(r, s) then [MarkOf(r)] else []
    decreases |rules|
  {
    if rules != [] {
      assert (rules + [r])[0] == rules[0] && (rules + [r])[1..] == rules[1..] + [r];
      MarkAtAppend(rules[1..], r, s);
    } else {
      assert [] + [r] == [r];
    }
  }

  /** Only a consonant gets a mark. */
  lemma {:induction false} MarkAtNeedsConsonant(rules: seq<Rewrite>, s: string)
    ensures MarkAt(rules, s) != [] ==> |s| >= 2 && s[0] in HarakahConsonants
    decreases |rules|
  {
    if rules != [] && !Fires(rules[0], s) {
      MarkAtNeedsConsonant(rules[1..], s);
    }
  }

  lemma {:induction false} AnnotatedUnmarked(rules: seq<Rewrite>, s: string)
    requires s != [] && MarkAt(rules, s) == []
    ensures Annotated(rules, s) == [s[0]] + Annotated(rules, s[1..])
  {
    assert [s[0]] + [] == [s[0]];
  }

  /** The vowel letters alif, ya and waw take no mark of their own. */
  lemma {:induction false} VowelLetterNotConsonant(c: char)
    requires c in {Alif, Ya, Waw}
    ensures c !in HarakahConsonants
  {
  }

  lemma {:induction false} CopiesNonConsonant(rules: seq<Rewrite>, s: string)
    requires s != [] && s[0] !in HarakahConsonants
    ensures Annotated(rules, s) == [s[0]] + Annotated(rules, s[1..])
  {
    MarkAtNeedsConsonant(rules, s);
    AnnotatedUnmarked(rules, s);
  }

  lemma {:induction false} AnnotatedHead(rules: seq<Rewrite>, s: string)
    requires s != []
    ensures Annotated(rules, s) != [] && Annotated(rules, s)[0] == s[0]
  {
  }

  /** A rule never matches at a harakah mark, so a replace copies a mark at the head. */
  lemma {:induction false} ReplaceSkipsMark(r: Rewrite, m: char, x: string)
    requires m in HarakahMarks
    ensures Replace(r, [m] + x) == [m] + Replace(r, x)
  {
    assert ([m] + x)[1..] == x;
  }

  /** At a position the earlier rules leave unmarked, a rule matches in the
      partly annotated text exactly where it matches in the original text. */
  lemma {:induction false} FiresOnAnnotated(rules: seq<Rewrite>, r: Rewrite, s: string)
    requires AllProper(rules) && Proper(r)
    requires s != [] && MarkAt(rules, s) == []
    ensures Fires(r, Annotated(rules, s)) <==> Fires(r, s)
    ensures r.VowelRule? && Fires(r, s) ==>
      Annotated(rules, s) == [s[0], s[1]] + Annotated(rules, s[2..])
  {
    var t := Annotated(rules, s);
    var t' := Annotated(rules, s[1..]);
    AnnotatedUnmarked(rules, s);
    if |s| >= 2 {
      AnnotatedHead(rules, s[1..]);
      assert t[0] == s[0] && t[1] == s[1];
      if s[1] in {Alif, Ya, Waw} {
        var a := Annotated(rules, s[2..]);
        assert t == [s[0], s[1]] + a by {
          VowelLetterNotConsonant(s[1]);
          CopiesNonConsonant(rules, s[1..]);
          assert s[1..][1..] == s[2..];
          assert t == [s[0]] + ([s[1]] + a);
        }
        assert t[2..] == a;
        if s[2..] != [] {
          AnnotatedHead(rules, s[2..]);
        }
        if r.VowelRule? {
          AheadSameHead(r.ahead, a, s[2..]);
        }
      }
    } else {
      assert t' == [];
    }
  }

  /** One more replace on the text the earlier replaces produced gives the
      text annotated by the earlier rules followed by this one. */
  lemma {:induction false} ReplaceStep(rules: seq<Rewrite>, r: Rewrite, s: string)
    requires AllProper(rules) && Proper(r)
    ensures Replace(r, Annotated(rules, s)) == Annotated(rules + [r], s)
    decreases |s|, 1
  {
    if s != [] {
      MarkAtProper(rules, s);
      if MarkAt(rules, s) != [] {
        ReplaceStepMarked(rules, r, s);
      } else if Fires(r, s) && r.VowelRule? {
        ReplaceStepVowel(rules, r, s);
      } else {
        ReplaceStepCopy(rules, r, s);
      }
    }
  }

  /** `ReplaceStep` where an earlier rule already marked the head. */
  lemma {:induction false} ReplaceStepMarked(rules: seq<Rewrite>, r: Rewrite, s: string)
    requires AllProper(rules) && Proper(r)
    requires s != [] && MarkAt(rules, s) != []
    ensures Replace(r, Annotated(rules, s)) == Annotated(rules + [r], s)
    decreases |s|, 0
  {
    var m := MarkAt(rules, s);
    MarkAtProper(rules, s);
    var mk := m[0];
    var rest := Annotated(rules, s[1..]);
    var t := Annotated(rules, s);
    assert t == [s[0]] + ([mk] + rest) by {
      assert m == [mk];
      Associates([s[0]], [mk], rest);
    }
    assert Replace(r, t) == [s[0]] + Replace(r, [mk] + rest) by {
      assert t[0] == s[0] && t[1..] == [mk] + rest && t[1] == mk;
      assert !Fires(r, t);
    }
    ReplaceSkipsMark(r, mk, rest);
    ReplaceStep(rules, r, s[1..]);
    assert Annotated(rules + [r], s) == [s[0]] + ([mk] + Annotated(rules + [r], s[1..])) by {
      MarkAtAppend(rules, r, s);
      Associates([s[0]], [mk], Annotated(rules + [r], s[1..]));
    }
  }

  /** `ReplaceStep` where this vowel rule matches the unmarked head. */
  lemma {:induction false} ReplaceStepVowel(rules: seq<Rewrite>, r: Rewrite, s: string)
    requires AllProper(rules) && Proper(r)
    requires s != [] && MarkAt(rules, s) == [] && Fires(r, s) && r.VowelRule?
    ensures Replace(r, Annotated(rules, s)) == Annotated(rules + [r], s)
    decreases |s|, 0
  {
    var a := Annotated(rules, s[2..]);
    var x := Annotated(rules + [r], s[2..]);
    assert Replace(r, Annotated(rules, s)) == [s[0], r.mark, s[1]] + Replace(r, a) by {
      var t := Annotated(rules, s);
      FiresOnAnnotated(rules, r, s);
      assert t[0] == s[0] && t[1] == s[1] && t[2..] == a;
    }
    assert Replace(r, a) == x by {
      ReplaceStep(rules, r, s[2..]);
    }
    assert Annotated(rules + [r], s) == [s[0], r.mark, s[1]] + x by {
      assert s[1..][1..] == s[2..];
      VowelLetterNotConsonant(s[1]);
      CopiesNonConsonant(rules + [r], s[1..]);
      MarkAtAppend(rules, r, s);
      assert Annotated(rules + [r], s) == [s[0]] + [r.mark] + ([s[1]] + x);
    }
  }

  /** `ReplaceStep` where this rule copies the unmarked head. */
  lemma {:induction false} ReplaceStepCopy(rules: seq<Rewrite>, r: Rewrite, s: string)
    requires AllProper(rules) && Proper(r)
    requires s != [] && MarkAt(rules, s) == [] && !(Fires(r, s) && r.VowelRule?)
    ensures Replace(r, Annotated(rules, s)) == Annotated(rules + [r], s)
    decreases |s|, 0
  {
    var t := Annotated(rules, s);
    var a := Annotated(rules, s[1..]);
    var m := MarkAt(rules + [r], s);
    assert m == (if Fires(r, s) then [Sukun] else []) by {
      MarkAtAppend(rules, r, s);
    }
    assert Replace(r, t) == [s[0]] + m + Replace(r, a) by {
      AnnotatedUnmarked(rules, s);
      FiresOnAnnotated(rules, r, s);
      assert t[0] == s[0] && t[1..] == a;
    }
    ReplaceStep(rules, r, s[1..]);
  }

  lemma {:induction false} AnnotatedByNoRules(s: string)
    ensures Annotated([], s) == s
    decreases |s|
  {
    if s != [] {
      AnnotatedByNoRules(s[1..]);
    }
  }

  lemma {:induction false} HarakahRulesProper()
    ensures AllProper(HarakahRules)
    ensures forall k :: 0 <= k <= |HarakahRules| ==> AllProper(HarakahRules[..k])
  {
  }

  /** The `k`-th replace of `addHarakah`, run on the text annotated by the
      first `k` rules, gives the text annotated by the first `k + 1`. */
  lemma {:induction false} HarakahStep(k: nat, t: string, s: string)
    requires k < |HarakahRules| && t == Annotated(HarakahRules[..k], s)
    ensures Replace(HarakahRules[k], t) == Annotated(HarakahRules[..k + 1], s)
  {
    HarakahRulesProper();
    assert HarakahRules[..k] + [HarakahRules[k]] == HarakahRules[..k + 1];
    ReplaceStep(HarakahRules[..k], HarakahRules[k], s);
  }

  // ----- The rules against the reference -----

  /** The seven replaces together mark a consonant exactly as the reference
      does: the two lookaheads of a vowel rule together admit every next
      character except alif, and the sukun rule admits the letters of
      U+0628–U+064A other than waw and ya. */
  lemma {:induction false} RulesMarkAsReference(s: string)
    ensures MarkAt(HarakahRules, s) == HarakahMark(s)
  {
    var rs := HarakahRules;
    assert MarkAt(rs[6..], s) == if Fires(SukunRule, s) then [Sukun] else [] by {
      assert rs[6..][1..] == [];
    }
    assert MarkAt(rs[4..], s) ==
      if Fires(rs[4], s) || Fires(rs[5], s) then [Damma] else MarkAt(rs[6..], s) by {
      assert rs[4..][1..] == rs[5..] && rs[5..][1..] == rs[6..];
    }
    assert MarkAt(rs[2..], s) ==
      if Fires(rs[2], s) || Fires(rs[3], s) then [Kasra] else MarkAt(rs[4..], s) by {
      assert rs[2..][1..] == rs[3..] && rs[3..][1..] == rs[4..];
    }
    assert MarkAt(rs, s) ==
      if Fires(rs[0], s) || Fires(rs[1], s) then [Fatha] else MarkAt(rs[2..], s) by {
      assert rs[1..][1..] == rs[2..];
    }
    if |s| >= 2 && s[0] in HarakahConsonants && s[1] in {Alif, Ya, Waw} {
      if |s| > 2 && s[2] == Alif {
        assert !AheadHolds(Boundary, s[2..]) && !AheadHolds(LetterAhead, s[2..]);
      } else {
        assert AheadHolds(Boundary, s[2..]) || AheadHolds(LetterAhead, s[2..]);
      }
    }
  }

  lemma {:induction false} AnnotatedAsReference(s: string)
    ensures Annotated(HarakahRules, s) == WithHarakah(s)
    decreases |s|
  {
    if s != [] {
      RulesMarkAsReference(s);
      AnnotatedAsReference(s[1..]);
    }
  }

  // ----- Properties of the pass -----

  /** A sukun goes only before another letter of U+0628–U+064A: never at the
      end, never before whitespace or punctuation, and never where a harakah
      mark, a shadda, alif, waw or ya follows. */
  lemma {:induction false} SukunOnlyBeforeLetter(s: string)
    requires HarakahMark(s) == [Sukun]
    ensures |s| >= 2 && s[0] in HarakahConsonants && Ba <= s[1] <= Ya
    ensures !IsSpace(s[1]) && s[1] !in BoundaryPunctuation && s[1] !in SukunBlockers
  {
  }

  /** The sukun lookahead is the range U+0628–U+064A, so the Pegon letters
      outside it (pa, ga, nga, nya, ca) never earn the consonant before them a
      sukun, while the Arabic consonants inside it do. */
  lemma {:induction false} NoSukunBeforePegonLetters(c: char, next: char, rest: string)
    requires c in HarakahConsonants && next in {Pa, Ga, Nga, Nya, Ca}
    ensures HarakahMark([c, next] + rest) == []
    ensures HarakahMark([c, Ba] + rest) == [Sukun]
  {
  }

  /** A vowel mark goes only between a consonant and its vowel letter, and
      never when alif follows the vowel letter. */
  lemma {:induction false} VowelMarkPlacement(s: string)
    requires HarakahMark(s) != [] && HarakahMark(s) != [Sukun]
    ensures |s| >= 2 && s[0] in HarakahConsonants
    ensures HarakahMark(s) == [Fatha] <==> s[1] == Alif
    ensures HarakahMark(s) == [Kasra] <==> s[1] == Ya
    ensures HarakahMark(s) == [Damma] <==> s[1] == Waw
    ensures |s| == 2 || s[2] != Alif
  {
  }

  /** The text without its harakah marks. */
  function Strip(s: string): (r: string)
    ensures |r| <= |s|
    ensures forall i :: 0 <= i < |r| ==> r[i] !in HarakahMarks
  {
    if s == [] then []
    else (if s[0] in HarakahMarks then [] else [s[0]]) + Strip(s[1..])
  }

  lemma {:induction false} StripCons(c: char, x: string)
    ensures Strip([c] + x) == (if c in HarakahMarks then [] else [c]) + Strip(x)
  {
    assert ([c] + x)[0] == c && ([c] + x)[1..] == x;
  }

  /** The pass only inserts marks: removing every harakah mark from its output
      gives the input with its own marks removed. */
  lemma {:induction false} OnlyInsertsMarks(s: string)
    ensures Strip(WithHarakah(s)) == Strip(s)
    ensures |WithHarakah(s)| >= |s|
    decreases |s|
  {
    if s != [] {
      OnlyInsertsMarks(s[1..]);
      var m := HarakahMark(s);
      var rest := WithHarakah(s[1..]);
      assert WithHarakah(s) == [s[0]] + (m + rest) by { Associates([s[0]], m, rest); }
      assert Strip(m + rest) == Strip(rest) by {
        if m != [] {
          assert m + rest == [m[0]] + rest;
          StripCons(m[0], rest);
        } else {
          assert m + rest == rest;
        }
      }
      StripCons(s[0], m + rest);
      assert s == [s[0]] + s[1..];
      StripCons(s[0], s[1..]);
    }
  }

  /** After a consonant that carries a mark, or at a character that is not a
      consonant, the reference adds nothing; so a second pass adds nothing. */
  lemma {:induction false} HarakahMarkAfterMark(c: char, m: char, x: string)
    requires m in HarakahMarks
    ensures HarakahMark([c, m] + x) == []
    ensures HarakahMark([m] + x) == []
  {
  }

  /** At a position the pass leaves unmarked, the marked text looks the same
      to the reference as the original: marks only follow consonants, and the
      reference looks past the next character only when that is a vowel letter. */
  lemma {:induction false} WithHarakahUnmarked(s: string)
    requires s != [] && HarakahMark(s) == []
    ensures WithHarakah(s) == [s[0]] + WithHarakah(s[1..])
  {
    assert [s[0]] + [] == [s[0]];
  }

  lemma {:induction false} WithHarakahHead(s: string)
    requires s != []
    ensures WithHarakah(s) != [] && WithHarakah(s)[0] == s[0]
  {
  }

  lemma {:induction false} UnmarkedStaysUnmarked(s: string)
    requires s != [] && HarakahMark(s) == []
    ensures HarakahMark(WithHarakah(s)) == []
  {
    var t := WithHarakah(s);
    WithHarakahUnmarked(s);
    if |s| >= 2 {
      var t' := WithHarakah(s[1..]);
      WithHarakahHead(s[1..]);
      assert t[0] == s[0] && t[1] == s[1];
      if s[1] in {Alif, Ya, Waw} {
        assert HarakahMark(s[1..]) == [];
        WithHarakahUnmarked(s[1..]);
        if |s| > 2 {
          assert s[1..][1..] == s[2..];
          WithHarakahHead(s[2..]);
          assert t'[1] == s[2];
          assert t[2] == s[2];
        } else {
          assert t' == [s[1]];
        }
      }
    }
  }

  /** Text whose head gets no mark and whose tail the pass leaves alone is left alone. */
  lemma {:induction false} StableAtHead(t: string)
    requires t != [] && HarakahMark(t) == [] && WithHarakah(t[1..]) == t[1..]
    ensures WithHarakah(t) == t
  {
    assert t == [t[0]] + t[1..];
  }

  /** `addHarakah` is idempotent: marked text gets no further marks. */
  lemma {:induction false} WithHarakahIdempotent(s: string)
    ensures WithHarakah(WithHarakah(s)) == WithHarakah(s)
    decreases |s|
  {
    if s != [] {
      var m := HarakahMark(s);
      var rest := WithHarakah(s[1..]);
      var t := WithHarakah(s);
      WithHarakahIdempotent(s[1..]);
      assert t == [s[0]] + (m + rest) by { Associates([s[0]], m, rest); }
      if m != [] {
        var u := [m[0]] + rest;
        assert m == [m[0]];
        assert HarakahMark(u) == [] && u[1..] == rest by {
          HarakahMarkAfterMark(s[0], m[0], rest);
        }
        StableAtHead(u);
        assert HarakahMark(t) == [] && t[1..] == u by {
          HarakahMarkAfterMark(s[0], m[0], rest);
          assert t == [s[0], m[0]] + rest;
        }
        StableAtHead(t);
      } else {
        assert t[1..] == rest by { assert m + rest == rest; }
        UnmarkedStaysUnmarked(s);
        StableAtHead(t);
      }
    }
  }

  /** The pass inserts no whitespace, so collapsed text stays collapsed. */
  lemma {:induction false} WithHarakahKeepsCollapsed(s: string)
    requires Collapsed(s)
    ensures Collapsed(WithHarakah(s))
    decreases |s|
  {
    if s != [] {
      CollapsedTail(s);
      WithHarakahKeepsCollapsed(s[1..]);
      var m := HarakahMark(s);
      var rest := WithHarakah(s[1..]);
      var t := WithHarakah(s);
      assert t == [s[0]] + m + rest;
      assert rest != [] ==> rest[0] == s[1];
      assert m != [] ==> !IsSpace(m[0]);
      forall i | 0 <= i < |t| && IsSpace(t[i]) ensures t[i] == ' ' {
        if i > |m| {
          assert t[i] == rest[i - 1 - |m|];
        }
      }
      forall i | 0 <= i < |t| - 1 ensures !(IsSpace(t[i]) && IsSpace(t[i + 1])) {
        if i > |m| {
          assert t[i] == rest[i - 1 - |m|] && t[i + 1] == rest[i - |m|];
        } else if i == |m| && m == [] {
          assert t[i] == s[0] && t[i + 1] == s[1];
        }
      }
    }
  }
}
