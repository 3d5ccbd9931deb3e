/** The glyph data of the Latin-to-Pegon translator: the Arabic-script letters and
    marks it produces, the Latin-to-Pegon table, the punctuation table, the
    context rules of the pre-pass and the character classes its regular
    expressions use. Everything here is constant data. */
module Glyphs {

  datatype Option<T> = None | Some(value: T)

  // ----- Arabic letters used by the tables -----
  const Alif: char := '\U{0627}'
  const Ba: char := '\U{0628}'
  const Ta: char := '\U{062A}'
  const Tsa: char := '\U{062B}'     // ث
  const Jim: char := '\U{062C}'
  const Hha: char := '\U{062D}'     // ح
  const Kha: char := '\U{062E}'
  const Dal: char := '\U{062F}'
  const Dzal: char := '\U{0630}'    // ذ
  const Ra: char := '\U{0631}'
  const Zai: char := '\U{0632}'
  const Sin: char := '\U{0633}'
  const Syin: char := '\U{0634}'
  const Sad: char := '\U{0635}'
  const Dad: char := '\U{0636}'
  const Za: char := '\U{0638}'      // ظ
  const Ain: char := '\U{0639}'
  const Ghain: char := '\U{063A}'
  const Fa: char := '\U{0641}'
  const Qaf: char := '\U{0642}'
  const Kaf: char := '\U{0643}'
  const Lam: char := '\U{0644}'
  const Mim: char := '\U{0645}'
  const Nun: char := '\U{0646}'
  const Ha: char := '\U{0647}'      // ه
  const Waw: char := '\U{0648}'
  const Ya: char := '\U{064A}'

  // ----- Pegon extension letters -----
  const Ca: char := '\U{0686}'      // چ
  const Nga: char := '\U{06A0}'     // ڠ
  const Pa: char := '\U{06A4}'      // ڤ
  const Nya: char := '\U{06BD}'     // ڽ
  const Ga: char := '\U{0762}'      // ݢ

  // ----- Harakah (diacritic) marks -----
  const Fatha: char := '\U{064E}'
  const Damma: char := '\U{064F}'
  const Kasra: char := '\U{0650}'
  const Shadda: char := '\U{0651}'
  const Sukun: char := '\U{0652}'

  // ----- Arabic punctuation -----
  const ArabicComma: char := '\U{060C}'
  const ArabicSemicolon: char := '\U{061B}'
  const ArabicQuestionMark: char := '\U{061F}'
  const ArabicFullStop: char := '\U{06D4}'

  /** The table `latinToPegonMap`, as a lookup on its keys. Its keys are one or
      two characters long; there is no longer key. */
  function Lookup(key: string): (r: Option<string>)
    ensures r.Some? ==> 1 <= |key| <= 2 && 1 <= |r.value| <= 3
  {
    if |key| == 1 then SingleGlyph(key[0])
    else if |key| == 2 then PairGlyph(key[0], key[1])
    else None
  }

  /** The characters keys are made of: ASCII letters and digits. */
  predicate IsKeyLetter(c: char) {
    'a' <= c <= 'z' || 'A' <= c <= 'Z' || '0' <= c <= '9'
  }

  /** The one-character keys: consonants, vowels, digits and upper-case consonants. */
  function SingleGlyph(c: char): (g: Option<string>)
    ensures g.Some? ==> IsKeyLetter(c) && |g.value| == 1
  {
    match c
    // basic consonants
    case 'b' => Some([Ba])   case 't' => Some([Ta])   case 's' => Some([Sin])
    case 'j' => Some([Jim])  case 'h' => Some([Ha])   case 'k' => Some([Kaf])
    case 'l' => Some([Lam])  case 'm' => Some([Mim])  case 'n' => Some([Nun])
    case 'p' => Some([Pa])   case 'r' => Some([Ra])   case 'w' => Some([Waw])
    case 'y' => Some([Ya])   case 'f' => Some([Fa])   case 'v' => Some([Pa])
    case 'q' => Some([Qaf])  case 'g' => Some([Ga])   case 'd' => Some([Dal])
    case 'c' => Some([Ca])
    // vowels
    case 'a' => Some([Alif]) case 'i' => Some([Ya])   case 'u' => Some([Waw])
    case 'e' => Some([Alif]) case 'o' => Some([Waw])
    // digits
    case '0' => Some(['\U{0660}']) case '1' => Some(['\U{0661}'])
    case '2' => Some(['\U{0662}']) case '3' => Some(['\U{0663}'])
    case '4' => Some(['\U{0664}']) case '5' => Some(['\U{0665}'])
    case '6' => Some(['\U{0666}']) case '7' => Some(['\U{0667}'])
    case '8' => Some(['\U{0668}']) case '9' => Some(['\U{0669}'])
    // capital letters
    case 'B' => Some([Ba])   case 'T' => Some([Ta])   case 'S' => Some([Sin])
    case 'J' => Some([Jim])  case 'H' => Some([Ha])   case 'K' => Some([Kaf])
    case 'L' => Some([Lam])  case 'M' => Some([Mim])  case 'N' => Some([Nun])
    case 'P' => Some([Pa])   case 'R' => Some([Ra])   case 'W' => Some([Waw])
    case 'Y' => Some([Ya])   case 'F' => Some([Fa])   case 'V' => Some([Pa])
    case 'Q' => Some([Qaf])  case 'G' => Some([Ga])   case 'D' => Some([Dal])
    case 'C' => Some([Ca])
    case _ => None
  }

  /** The two-character keys: doubled consonants, digraphs, the vowel pairs
      ai/au/oi and the upper-case digraphs. */
  function PairGlyph(a: char, b: char): (g: Option<string>)
    ensures g.Some? ==> IsKeyLetter(a) && IsKeyLetter(b) && 1 <= |g.value| <= 3
  {
    match (a, b)
    // doubled consonants
    case ('b', 'b') => Some([Ba, Shadda])  case ('t', 't') => Some([Ta, Shadda])
    case ('d', 'd') => Some([Dal, Shadda]) case ('c', 'c') => Some([Ca, Shadda])
    case ('j', 'j') => Some([Jim, Shadda]) case ('h', 'h') => Some([Ha, Shadda])
    case ('k', 'k') => Some([Kaf, Shadda]) case ('l', 'l') => Some([Lam, Shadda])
    case ('m', 'm') => Some([Mim, Shadda]) case ('n', 'n') => Some([Nun, Shadda])
    case ('p', 'p') => Some([Pa, Shadda])  case ('r', 'r') => Some([Ra, Shadda])
    case ('s', 's') => Some([Sin, Shadda]) case ('f', 'f') => Some([Fa, Shadda])
    case ('g', 'g') => Some([Ga, Shadda])
    // consonant combinations
    case ('c', 'h') => Some([Ca])   case ('n', 'y') => Some([Nya])
    case ('n', 'g') => Some([Nga])  case ('k', 'h') => Some([Kha])
    case ('s', 'y') => Some([Syin]) case ('t', 'h') => Some([Tsa])
    case ('d', 'h') => Some([Dzal]) case ('z', 'h') => Some([Zai])
    case ('d', 'z') => Some([Zai])
    // vowel pairs
    case ('a', 'i') => Some([Alif, Ya])
    case ('a', 'u') => Some([Alif, Damma, Waw])
    case ('o', 'i') => Some([Waw, Kasra, Ya])
    // capital combinations
    case ('C', 'H') => Some([Ca])   case ('N', 'Y') => Some([Nya])
    case ('N', 'G') => Some([Nga])  case ('K', 'H') => Some([Kha])
    case ('S', 'Y') => Some([Syin]) case ('T', 'H') => Some([Tsa])
    case ('D', 'H') => Some([Dzal]) case ('Z', 'H') => Some([Zai])
    case ('D', 'Z') => Some([Zai])
    case _ => None
  }

  /** True when `c` occurs in no key of the table. */
  predicate NotInAnyKey(c: char) {
    SingleGlyph(c).None? && forall x: char :: PairGlyph(c, x).None? && PairGlyph(x, c).None?
  }

  /** The character class `[.,!?;:()\-'"[\]/\\]` of the scanner's punctuation branch. */
  const PunctuationClass: set<char> :=
    {'.', ',', '!', '?', ';', ':', '(', ')', '-', '\'', '"', '[', ']', '/', '\\'}

  /** The scanner's `punctMap`; only four entries change the character. */
  const PunctMap: map<char, string> := map[
    '.' := [ArabicFullStop], ',' := [ArabicComma], '?' := [ArabicQuestionMark],
    '!' := "!", ';' := [ArabicSemicolon], '(' := "(", ')' := ")", '[' := "[",
    ']' := "]", '-' := "-", '"' := "\"", '\'' := "'", ':' := ":", '/' := "/",
    '\\' := "\\", '_' := "_", '@' := "@", '#' := "#", '$' := "$", '%' := "%",
    '&' := "&", '*' := "*", '+' := "+", '=' := "=", '<' := "<", '>' := ">"
  ]

  /** The vowel class `[aeiou]` of the context rules' lookahead. */
  predicate IsLatinVowel(c: char) {
    c == 'a' || c == 'e' || c == 'i' || c == 'o' || c == 'u'
  }

  /** One entry of `specialRules`: the digraph `first second`, when directly
      followed by a lower-case vowel, is rewritten to `glyph`. */
  datatype SpecialRule = SpecialRule(first: char, second: char, glyph: char)

  /** `specialRules`, in the order the pre-pass applies them. */
  const SpecialRules: seq<SpecialRule> := [
    SpecialRule('n', 'g', Nga),
    SpecialRule('n', 'y', Nya),
    SpecialRule('s', 'y', Syin),
    SpecialRule('k', 'h', Kha),
    SpecialRule('c', 'h', Ca),
    SpecialRule('d', 'z', Zai),
    SpecialRule('t', 'h', Tsa),
    SpecialRule('d', 'h', Dzal),
    SpecialRule('g', 'h', Ghain),
    SpecialRule('p', 'h', Fa)
  ]

  /** The consonant alternation `(ب|ت|س|...|د)` of every harakah regular expression. */
  const HarakahConsonants: set<char> := {
    Ba, Ta, Sin, Jim, Ha, Kaf, Lam, Mim, Nun, Pa, Ra, Fa, Qaf, Ga, Nga,
    Nya, Ca, Kha, Syin, Tsa, Dzal, Zai, Dad, Za, Ghain, Ain, Hha, Sad, Dal
  }

  /** The marks that the harakah pass inserts. */
  const HarakahMarks: set<char> := {Fatha, Kasra, Damma, Sukun}

  /** The punctuation alternatives `\.|,|;|:|!|\?|،|؟|۔` of the harakah lookaheads. */
  const BoundaryPunctuation: set<char> :=
    {'.', ',', ';', ':', '!', '?', ArabicComma, ArabicQuestionMark, ArabicFullStop}

  /** JavaScript's `\s`: the WhiteSpace and LineTerminator characters of ECMAScript. */
  predicate IsSpace(c: char) {
    c == '\t' || c == '\n' || c == '\U{000B}' || c == '\U{000C}' || c == '\r' ||
    c == ' ' || c == '\U{00A0}' || c == '\U{1680}' ||
    ('\U{2000}' <= c <= '\U{200A}') ||
    c == '\U{2028}' || c == '\U{2029}' || c == '\U{202F}' || c == '\U{205F}' ||
    c == '\U{3000}' || c == '\U{FEFF}'
  }

  /** The ranges U+0600–06FF, U+0750–077F, U+08A0–08FF, U+FB50–FDFF and
      U+FE70–FEFF tested by `containsArabicScript`. */
  predicate IsArabicScript(c: char) {
    ('\U{0600}' <= c <= '\U{06FF}') || ('\U{0750}' <= c <= '\U{077F}') ||
    ('\U{08A0}' <= c <= '\U{08FF}') || ('\U{FB50}' <= c <= '\U{FDFF}') ||
    ('\U{FE70}' <= c <= '\U{FEFF}')
  }

  // ----- Facts about the table -----

  /** The table has no 3-character key, so the scanner's 3-character lookup never succeeds. */
  lemma {:induction false} NoThreeCharacterKey(key: string)
    requires |key| == 3
    ensures Lookup(key).None?
  {
  }

  /** Every doubled-consonant key maps to the glyph of its single letter followed
      by a shadda: one consonant glyph, never two. */
  lemma {:induction false} DoubledIsShadda(c: char)
    requires PairGlyph(c, c).Some?
    ensures SingleGlyph(c).Some? && |SingleGlyph(c).value| == 1
    ensures SingleGlyph(c).value[0] in HarakahConsonants
    ensures PairGlyph(c, c).value == SingleGlyph(c).value + [Shadda]
  {
  }

  /** Digits map to the Eastern Arabic-Indic digits U+0660–U+0669. */
  lemma {:induction false} DigitsAreEastern(d: char)
    requires '0' <= d <= '9'
    ensures SingleGlyph(d) == Some([(d as int - '0' as int + 0x0660) as char])
  {
  }

  /** Every value of the table is a non-empty string of Arabic-script characters. */
  lemma {:induction false} GlyphsAreArabic(key: string)
    requires Lookup(key).Some?
    ensures Lookup(key).value != []
    ensures forall j :: 0 <= j < |Lookup(key).value| ==> IsArabicScript(Lookup(key).value[j])
  {
    if |key| == 1 {
      SingleGlyphIsArabic(key[0]);
    } else {
      PairGlyphIsArabic(key[0], key[1]);
    }
  }

  lemma {:induction false} SingleGlyphIsArabic(c: char)
    requires SingleGlyph(c).Some?
    ensures IsArabicScript(SingleGlyph(c).value[0])
  {
  }

  lemma {:induction false} PairGlyphIsArabic(a: char, b: char)
    requires PairGlyph(a, b).Some?
    ensures forall j :: 0 <= j < |PairGlyph(a, b).value| ==> IsArabicScript(PairGlyph(a, b).value[j])
  {
  }

  /** Every key of the table is ASCII, so no other character occurs in a key. */
  lemma {:induction false} NonAsciiNotInAnyKey(c: char)
    requires c as int >= 0x80
    ensures NotInAnyKey(c)
  {
  }

  /** The glyphs the pre-pass inserts occur in no key of the table and are
      neither a space, a digit nor scanner punctuation. */
  lemma {:induction false} RuleGlyphsAreNotKeyChars(r: SpecialRule)
    requires r in SpecialRules
    ensures NotInAnyKey(r.glyph)
    ensures r.glyph !in PunctuationClass && r.glyph != ' '
    ensures !('0' <= r.glyph <= '9')
  {
    NonAsciiNotInAnyKey(r.glyph);
  }

  /** Concatenation regroups; the proofs of the other modules call this where
      the solver would otherwise have to find the regrouping itself. */
  lemma {:induction false} Associates(a: string, b: string, c: string)
    ensures a + (b + c) == a + b + c
  {
  }
}
