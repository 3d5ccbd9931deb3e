/** The segmenter: the `while` loop of `convertToPegon`, which walks the
    pre-passed text left to right and at each position tries a 3-character,
    then a 2-character, then a 1-character table lookup. The loop itself is
    `PegonTranslator.ConvertToPegon`; `Scan` is the function it is proved
    against, and `Segments` the pieces of input each iteration consumes. */
module Segmenter {
  import opened Glyphs

  /** What the single-character branch emits for `c`: its table glyph, else a
      space for a space, the digit itself for a digit, the `punctMap` entry
      for scanner punctuation, and `c` itself otherwise. */
  function Single(c: char): (r: string)
    ensures |r| == 1
  {
    match SingleGlyph(c)
    case Some(glyph) => glyph
    case None =>
      if c == ' ' then " "
      else if '0' <= c <= '9' then [c]
      else if c in PunctuationClass then (if c in PunctMap then PunctMap[c] else [c])
      else [c]
  }

  /** How many characters one iteration of the scan loop consumes at the start
      of `s`: 3 when the first three characters are a key, else 2 when the first
      two are, else 1. */
  function MatchLength(s: string): (n: nat)
    requires s != []
    ensures 1 <= n <= |s| && n <= 3
    ensures n > 1 ==> Lookup(s[..n]).Some?
  {
    if |s| >= 3 && Lookup(s[..3]).Some? then 3
    else if |s| >= 2 && Lookup(s[..2]).Some? then 2
    else 1
  }

  /** What one iteration appends for the consumed piece: the table value of a
      multi-character key, else the single-character branch. */
  function Emit(piece: string): string
    requires piece != [] && (|piece| > 1 ==> Lookup(piece).Some?)
  {
    if |piece| > 1 then Lookup(piece).value else Single(piece[0])
  }

  /** The output of the scan loop on `s`. */
  function Scan(s: string): (r: string)
    ensures r == [] <==> s == []
    decreases |s|
  {
    if s == [] then []
    else
      var n := MatchLength(s);
      Emit(s[..n]) + Scan(s[n..])
  }

  /** One iteration of the scan loop at position `i` takes the 3-, 2- or
      1-character branch, consuming `n` characters and appending `emitted`. */
  predicate Advances(s: string, i: nat, n: nat, emitted: string) {
    1 <= n && i + n <= |s| &&
    ((n == 3 && Lookup(s[i..i + 3]).Some? && emitted == Lookup(s[i..i + 3]).value) ||
     (n == 2 && !(i < |s| - 2 && Lookup(s[i..i + 3]).Some?) && Lookup(s[i..i + 2]).Some? &&
       emitted == Lookup(s[i..i + 2]).value) ||
     (n == 1 && !(i < |s| - 2 && Lookup(s[i..i + 3]).Some?) &&
       !(i < |s| - 1 && Lookup(s[i..i + 2]).Some?) && emitted == Single(s[i])))
  }

  /** What one iteration appends, followed by the scan of what it leaves, is
      the scan of the text from `i`. */
  lemma {:induction false} ScanAdvance(s: string, i: nat, n: nat, emitted: string)
    requires Advances(s, i, n, emitted)
    ensures Scan(s[i..]) == emitted + Scan(s[i + n..])
  {
    var r := s[i..];
    assert r[0] == s[i] && r[n..] == s[i + n..];
    assert |r| >= 2 ==> r[..2] == s[i..i + 2];
    assert |r| >= 3 ==> r[..3] == s[i..i + 3];
    assert MatchLength(r) == n;
  }

  /** Each iteration consumes one or two characters and appends one to three,
      so the output is at least half and at most twice as long as the input. */
  lemma {:induction false} ScanLength(s: string)
    ensures |s| <= 2 * |Scan(s)| && |Scan(s)| <= 2 * |s|
    decreases |s|
  {
    if s != [] {
      var n := MatchLength(s);
      ScanLength(s[n..]);
      assert |Scan(s)| == |Emit(s[..n])| + |Scan(s[n..])|;
    }
  }

  /** Longest match first: a 2-character key at the start is always taken
      before the 1-character lookup, and the 3-character lookup never succeeds
      because the table has no such key. */
  lemma {:induction false} LongestMatch(s: string)
    requires s != []
    ensures MatchLength(s) != 3
    ensures MatchLength(s) == 2 <==> |s| >= 2 && PairGlyph(s[0], s[1]).Some?
  {
    if |s| >= 3 {
      NoThreeCharacterKey(s[..3]);
    }
    if |s| >= 2 {
      assert s[..2] == [s[0], s[1]];
    }
  }

  function Concat(parts: seq<string>): string {
    if parts == [] then [] else parts[0] + Concat(parts[1..])
  }

  /** The pieces of input the iterations of the scan loop consume, in order.
      Every character is consumed exactly once, each iteration advances by one
      or two characters, a two-character piece is a table key, and a
      one-character piece never forms a key with the character after it. */
  function Segments(s: string): (parts: seq<string>)
    ensures Concat(parts) == s
    ensures forall k :: 0 <= k < |parts| ==> 1 <= |parts[k]| <= 2
    ensures forall k :: 0 <= k < |parts| && |parts[k]| == 2 ==> Lookup(parts[k]).Some?
    ensures forall k :: 0 <= k < |parts| - 1 && |parts[k]| == 1 ==>
      PairGlyph(parts[k][0], parts[k + 1][0]).None?
    ensures s != [] ==> parts != [] && parts[0][0] == s[0]
    decreases |s|
  {
    if s == [] then []
    else
      var n := MatchLength(s);
      var rest := Segments(s[n..]);
      assert n == 1 && rest != [] ==> PairGlyph(s[..n][0], rest[0][0]).None? by {
        LongestMatch(s);
      }
      PrependPiece(s[..n], rest);
      assert s == s[..n] + s[n..];
      [s[..n]] + rest
  }

  /** A piece the scan may consume, put in front of a valid cutting, gives a
      valid cutting of the longer text. */
  lemma {:induction false} PrependPiece(p: string, rest: seq<string>)
    requires 1 <= |p| <= 2 && (|p| == 2 ==> Lookup(p).Some?)
    requires forall k :: 0 <= k < |rest| ==> 1 <= |rest[k]| <= 2
    requires forall k :: 0 <= k < |rest| && |rest[k]| == 2 ==> Lookup(rest[k]).Some?
    requires forall k :: 0 <= k < |rest| - 1 && |rest[k]| == 1 ==>
      PairGlyph(rest[k][0], rest[k + 1][0]).None?
    requires |p| == 1 && rest != [] ==> PairGlyph(p[0], rest[0][0]).None?
    ensures Concat([p] + rest) == p + Concat(rest)
    ensures forall k :: 0 <= k < |[p] + rest| ==> 1 <= |([p] + rest)[k]| <= 2
    ensures forall k :: 0 <= k < |[p] + rest| && |([p] + rest)[k]| == 2 ==> Lookup(([p] + rest)[k]).Some?
    ensures forall k :: 0 <= k < |[p] + rest| - 1 && |([p] + rest)[k]| == 1 ==>
      PairGlyph(([p] + rest)[k][0], ([p] + rest)[k + 1][0]).None?
  {
    var parts := [p] + rest;
    assert parts[0] == p && parts[1..] == rest;
    forall k | 0 < k < |parts| ensures parts[k] == rest[k - 1] {
    }
  }

  /** The scan output is the concatenation of the consumed pieces, each emitted on its own. */
  lemma {:induction false} ScanEmitsSegments(s: string)
    ensures Scan(s) == EmitAll(Segments(s))
    decreases |s|
  {
    if s != [] {
      LongestMatch(s);
      ScanEmitsSegments(s[MatchLength(s)..]);
    }
  }

  function EmitAll(parts: seq<string>): string
    requires forall k :: 0 <= k < |parts| ==> 1 <= |parts[k]| <= 2
    requires forall k :: 0 <= k < |parts| && |parts[k]| == 2 ==> Lookup(parts[k]).Some?
  {
    if parts == [] then [] else Emit(parts[0]) + EmitAll(parts[1..])
  }

  /** Pass-through: a character without a table entry is emitted unchanged,
      except that `.` `,` `?` `;` become their Arabic forms; digits go through
      the table to Eastern Arabic-Indic digits, so the digit branch is never taken. */
  lemma {:induction false} SingleCharacter(c: char)
    ensures '0' <= c <= '9' ==> Single(c) == [(c as int - '0' as int + 0x0660) as char]
    ensures Single(c) ==
      if SingleGlyph(c).Some? then SingleGlyph(c).value
      else if c == '.' then [ArabicFullStop]
      else if c == ',' then [ArabicComma]
      else if c == '?' then [ArabicQuestionMark]
      else if c == ';' then [ArabicSemicolon]
      else [c]
  {
    if '0' <= c <= '9' {
      DigitsAreEastern(c);
    }
    if SingleGlyph(c).None? {
      PassThrough(c);
    }
  }

  /** The case of `SingleCharacter` for a character without a table entry,
      proved apart so that the punctuation map is not unfolded together with
      the glyph table. */
  lemma {:induction false} PassThrough(c: char)
    requires SingleGlyph(c).None?
    ensures Single(c) ==
      if c == '.' then [ArabicFullStop]
      else if c == ',' then [ArabicComma]
      else if c == '?' then [ArabicQuestionMark]
      else if c == ';' then [ArabicSemicolon]
      else [c]
  {
  }

  /** Each character on its own through the single-character branch. */
  function Singles(s: string): string {
    if s == [] then [] else Single(s[0]) + Singles(s[1..])
  }

  /** Where no two neighbouring characters form a key, the scan takes one
      character at a time. */
  lemma {:induction false} ScanWithoutPairs(s: string)
    requires forall i :: 0 <= i < |s| - 1 ==> PairGlyph(s[i], s[i + 1]).None?
    ensures Scan(s) == Singles(s)
    decreases |s|
  {
    if s != [] {
      LongestMatch(s);
      forall i | 0 <= i < |s[1..]| - 1 ensures PairGlyph(s[1..][i], s[1..][i + 1]).None? {
        assert s[1..][i] == s[i + 1] && s[1..][i + 1] == s[i + 2];
      }
      ScanWithoutPairs(s[1..]);
    }
  }

  /** A doubled consonant such as "mm" is consumed as one unit and yields one
      consonant glyph plus a shadda, never two glyphs. */
  lemma {:induction false} Gemination(c: char, t: string)
    requires PairGlyph(c, c).Some?
    ensures Scan([c, c] + t) == [SingleGlyph(c).value[0], Shadda] + Scan(t)
  {
    var s := [c, c] + t;
    assert MatchLength(s) == 2 by {
      LongestMatch(s);
      assert s[0] == c && s[1] == c;
    }
    assert Scan(s) == Emit([c, c]) + Scan(t) by {
      assert s[..2] == [c, c] && s[2..] == t;
    }
    assert Emit([c, c]) == [SingleGlyph(c).value[0], Shadda] by {
      DoubledIsShadda(c);
      assert Lookup([c, c]) == PairGlyph(c, c);
    }
  }

  /** A character that occurs in no key and is not scanner punctuation splits
      the scan: it is copied unchanged and the text on either side is scanned
      on its own. This is how the glyphs of the pre-pass reach the output. */
  lemma {:induction false} ScanSplitsAt(u: string, c: char, t: string)
    requires NotInAnyKey(c) && c !in PunctuationClass
    ensures Scan(u + [c] + t) == Scan(u) + [c] + Scan(t)
    decreases |u|
  {
    if u == [] {
      assert u + [c] + t == [c] + t;
      ScanAtSplitter(c, t);
    } else {
      var n := MatchLength(u);
      ScanBeforeSplitter(u, c, t);
      ScanSplitsAt(u[n..], c, t);
      assert Scan(u) == Emit(u[..n]) + Scan(u[n..]);
      Associates(Emit(u[..n]), Scan(u[n..]) + [c], Scan(t));
      Associates(Emit(u[..n]), Scan(u[n..]), [c]);
    }
  }

  /** The scan at a character that occurs in no key copies it. */
  lemma {:induction false} ScanAtSplitter(c: char, t: string)
    requires NotInAnyKey(c) && c !in PunctuationClass
    ensures Scan([c] + t) == [c] + Scan(t)
  {
    var s := [c] + t;
    LongestMatch(s);
    assert s[1..] == t;
    if |s| >= 2 {
      assert PairGlyph(c, s[1]).None?;
    }
    SingleCharacter(c);
  }

  /** Before a character that occurs in no key, the scan takes the same first
      piece as it does without what follows. */
  lemma {:induction false} ScanBeforeSplitter(u: string, c: char, t: string)
    requires u != [] && NotInAnyKey(c)
    ensures Scan(u + [c] + t) == Emit(u[..MatchLength(u)]) + Scan(u[MatchLength(u)..] + [c] + t)
  {
    var s := u + [c] + t;
    var n := MatchLength(u);
    LongestMatch(s);
    LongestMatch(u);
    if |u| == 1 {
      assert PairGlyph(u[0], c).None?;
    } else {
      assert s[..2] == u[..2];
    }
    assert s[..n] == u[..n];
    assert s[n..] == u[n..] + [c] + t;
  }
}
