/** The two text post-passes of `convertToPegon` before the optional harakah
    pass: `handleVowelPatterns`, which returns its input, and `formatWords`,
    which is `text.replace(/\s+/g, ' ')`. */
module Format {
  import opened Glyphs

  /** `handleVowelPatterns`: the text is returned unchanged. */
  function HandleVowelPatterns(text: string): (r: string)
    ensures r == text
  {
    text
  }

  /** The text after its leading run of whitespace. */
  function DropSpaces(s: string): (r: string)
    ensures |r| <= |s| && r == s[|s| - |r|..]
    ensures r == [] || !IsSpace(r[0])
    ensures forall i :: 0 <= i < |s| - |r| ==> IsSpace(s[i])
  {
    if s != [] && IsSpace(s[0]) then DropSpaces(s[1..]) else s
  }

  /** `formatWords`: each maximal run of whitespace becomes one space, matched
      greedily from left to right as the global regular expression does. */
  function FormatWords(text: string): (r: string)
    ensures |r| <= |text|
    ensures text != [] ==> r != [] && (IsSpace(r[0]) <==> IsSpace(text[0]))
    decreases |text|
  {
    if text == [] then []
    else if IsSpace(text[0]) then
      var rest := FormatWords(DropSpaces(text[1..]));
      [' '] + rest
    else
      [text[0]] + FormatWords(text[1..])
  }

  /** Every whitespace character is a plain space, and no two whitespace
      characters are adjacent. */
  predicate Collapsed(s: string) {
    (forall i :: 0 <= i < |s| && IsSpace(s[i]) ==> s[i] == ' ') &&
    (forall i :: 0 <= i < |s| - 1 ==> !(IsSpace(s[i]) && IsSpace(s[i + 1])))
  }

  /** The output of `formatWords` is collapsed. */
  lemma {:induction false} FormatWordsCollapsed(text: string)
    ensures Collapsed(FormatWords(text))
    decreases |text|
  {
    if text != [] {
      var rest := if IsSpace(text[0]) then DropSpaces(text[1..]) else text[1..];
      FormatWordsCollapsed(rest);
      var r, tail := FormatWords(text), FormatWords(rest);
      assert r == [r[0]] + tail;
      assert IsSpace(r[0]) ==> r[0] == ' ';
      assert tail != [] && IsSpace(r[0]) ==> !IsSpace(tail[0]);
      forall i | 0 <= i < |r| - 1 ensures !(IsSpace(r[i]) && IsSpace(r[i + 1])) {
        if i > 0 {
          assert r[i] == tail[i - 1] && r[i + 1] == tail[i];
        }
      }
    }
  }

  /** The non-whitespace characters of `s`, in order. */
  function Visible(s: string): string {
    if s == [] then []
    else (if IsSpace(s[0]) then [] else [s[0]]) + Visible(s[1..])
  }

  lemma {:induction false} VisibleDropSpaces(s: string)
    ensures Visible(DropSpaces(s)) == Visible(s)
    decreases |s|
  {
    if s != [] && IsSpace(s[0]) {
      VisibleDropSpaces(s[1..]);
    }
  }

  /** `formatWords` keeps every non-whitespace character, in order. */
  lemma {:induction false} FormatWordsKeepsVisible(text: string)
    ensures Visible(FormatWords(text)) == Visible(text)
    decreases |text|
  {
    if text == [] {
    } else if IsSpace(text[0]) {
      var rest := DropSpaces(text[1..]);
      FormatWordsKeepsVisible(rest);
      VisibleDropSpaces(text[1..]);
      assert ([' '] + FormatWords(rest))[1..] == FormatWords(rest);
    } else {
      FormatWordsKeepsVisible(text[1..]);
      assert ([text[0]] + FormatWords(text[1..]))[1..] == FormatWords(text[1..]);
    }
  }

  /** The tail of collapsed text is collapsed. */
  lemma {:induction false} CollapsedTail(s: string)
    requires s != [] && Collapsed(s)
    ensures Collapsed(s[1..])
  {
    forall i | 0 <= i < |s[1..]| - 1
      ensures !(IsSpace(s[1..][i]) && IsSpace(s[1..][i + 1]))
    {
      assert s[1..][i] == s[i + 1] && s[1..][i + 1] == s[i + 2];
    }
  }

  /** Text that is already collapsed is left unchanged. */
  lemma {:induction false} FormatWordsFixesCollapsed(s: string)
    requires Collapsed(s)
    ensures FormatWords(s) == s
    decreases |s|
  {
    if s != [] {
      CollapsedTail(s);
      FormatWordsFixesCollapsed(s[1..]);
      if IsSpace(s[0]) {
        assert s[1..] == [] || !IsSpace(s[1]);
        assert DropSpaces(s[1..]) == s[1..];
        assert s == [' '] + s[1..];
      } else {
        assert s == [s[0]] + s[1..];
      }
    }
  }

  /** `formatWords` is idempotent. */
  lemma {:induction false} FormatWordsIdempotent(text: string)
    ensures FormatWords(FormatWords(text)) == FormatWords(text)
  {
    FormatWordsCollapsed(text);
    FormatWordsFixesCollapsed(FormatWords(text));
  }

  /** A run of whitespace between two non-whitespace ends becomes exactly one
      space, and the text on either side is formatted on its own. */
  lemma {:induction false} FormatWordsCollapsesRun(x: string, w: string, y: string)
    requires w != [] && forall i :: 0 <= i < |w| ==> IsSpace(w[i])
    requires x == [] || !IsSpace(x[|x| - 1])
    requires y == [] || !IsSpace(y[0])
    ensures FormatWords(x + w + y) == FormatWords(x) + " " + FormatWords(y)
    decreases |x|, 1
  {
    if x == [] {
      CollapsesRunAtStart(x, w, y);
    } else if IsSpace(x[0]) {
      CollapsesRunAfterSpace(x, w, y);
    } else {
      CollapsesRunAfterVisible(x, w, y);
    }
  }

  /** The case of `FormatWordsCollapsesRun` where `x` is empty. */
  lemma {:induction false} CollapsesRunAtStart(x: string, w: string, y: string)
    requires w != [] && forall i :: 0 <= i < |w| ==> IsSpace(w[i])
    requires x == [] && (y == [] || !IsSpace(y[0]))
    ensures FormatWords(x + w + y) == FormatWords(x) + " " + FormatWords(y)
  {
    assert x + w + y == w + y && FormatWords(x) + " " == " ";
    var s := w + y;
    assert s[0] == w[0] && s[1..] == w[1..] + y;
    DropSpacesRun(w[1..], y);
    assert FormatWords(s) == [' '] + FormatWords(DropSpaces(s[1..]));
  }

  /** The case of `FormatWordsCollapsesRun` where `x` starts with a visible character. */
  lemma {:induction false} CollapsesRunAfterVisible(x: string, w: string, y: string)
    requires w != [] && forall i :: 0 <= i < |w| ==> IsSpace(w[i])
    requires x != [] && !IsSpace(x[0]) && !IsSpace(x[|x| - 1])
    requires y == [] || !IsSpace(y[0])
    ensures FormatWords(x + w + y) == FormatWords(x) + " " + FormatWords(y)
    decreases |x|, 0
  {
    TailOfConcat(x, w, y);
    FormatWordsCollapsesRun(x[1..], w, y);
    ConsAssociates(x[0], FormatWords(x[1..]), FormatWords(y));
  }

  /** The case of `FormatWordsCollapsesRun` where `x` starts with whitespace. */
  lemma {:induction false} CollapsesRunAfterSpace(x: string, w: string, y: string)
    requires w != [] && forall i :: 0 <= i < |w| ==> IsSpace(w[i])
    requires x != [] && IsSpace(x[0]) && !IsSpace(x[|x| - 1])
    requires y == [] || !IsSpace(y[0])
    ensures FormatWords(x + w + y) == FormatWords(x) + " " + FormatWords(y)
    decreases |x|, 0
  {
    var s := x + w + y;
    var x' := DropSpaces(x[1..]);
    assert x[1..] != [] && !IsSpace(x[1..][|x[1..]| - 1]);
    assert DropSpaces(s[1..]) == x' + w + y by {
      TailOfConcat(x, w, y);
      DropSpacesPrefix(x[1..], w + y);
      Associates(x', w, y);
    }
    assert FormatWords(s) == [' '] + FormatWords(x' + w + y) by {
      assert s[0] == x[0];
    }
    DropSpacesKeepsLast(x[1..]);
    FormatWordsCollapsesRun(x', w, y);
    ConsAssociates(' ', FormatWords(x'), FormatWords(y));
  }

  lemma {:induction false} TailOfConcat(x: string, w: string, y: string)
    requires x != []
    ensures (x + w + y)[1..] == x[1..] + w + y == x[1..] + (w + y)
  {
  }

  lemma {:induction false} ConsAssociates(c: char, a: string, b: string)
    ensures [c] + (a + " " + b) == ([c] + a) + " " + b
  {
  }

  /** Dropping leading whitespace keeps a visible last character. */
  lemma {:induction false} DropSpacesKeepsLast(s: string)
    requires s != [] && !IsSpace(s[|s| - 1])
    ensures DropSpaces(s) != [] && DropSpaces(s)[|DropSpaces(s)| - 1] == s[|s| - 1]
  {
    var d := DropSpaces(s);
    assert d == s[|s| - |d|..];
  }

  /** Dropping a whitespace run in front of text that starts with a visible character. */
  lemma {:induction false} DropSpacesRun(w: string, y: string)
    requires forall i :: 0 <= i < |w| ==> IsSpace(w[i])
    requires y == [] || !IsSpace(y[0])
    ensures DropSpaces(w + y) == y
    decreases |w|
  {
    if w != [] {
      assert (w + y)[1..] == w[1..] + y;
      DropSpacesRun(w[1..], y);
    } else {
      assert w + y == y;
    }
  }

  /** Dropping leading whitespace of text that ends with a visible character
      does not reach what follows it. */
  lemma {:induction false} DropSpacesPrefix(x: string, z: string)
    requires x != [] && !IsSpace(x[|x| - 1])
    ensures DropSpaces(x + z) == DropSpaces(x) + z
    decreases |x|
  {
    if IsSpace(x[0]) {
      assert (x + z)[1..] == x[1..] + z;
      DropSpacesPrefix(x[1..], z);
    }
  }
}
