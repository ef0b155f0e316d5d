/** The string methods the source relies on, over ASCII whitespace. */
module Text {

  predicate IsSpace(c: char) {
    c == ' ' || '\t' <= c <= '\r' || ('\U{1C}' <= c <= '\U{1F}')
  }

  /** Non-empty and without surrounding whitespace. */
  predicate Trimmed(s: string) {
    |s| > 0 && !IsSpace(s[0]) && !IsSpace(s[|s| - 1])
  }

  predicate Spaceless(s: string) {
    forall i | 0 <= i < |s| :: !IsSpace(s[i])
  }

  /** What split() can return. */
  predicate Word(s: string) {
    |s| > 0 && Spaceless(s)
  }

  predicate AllWords(ws: seq<string>) {
    forall i | 0 <= i < |ws| :: Word(ws[i])
  }

  function Flush(word: string): seq<string> {
    if word == "" then [] else [word]
  }

  /** The scan behind split(): `word` is the item read so far. */
  function SplitFrom(s: string, word: string): seq<string> {
    if |s| == 0 then Flush(word)
    else if IsSpace(s[0]) then Flush(word) + SplitFrom(s[1..], "")
    else SplitFrom(s[1..], word + [s[0]])
  }

  function Split(s: string): seq<string> {
    SplitFrom(s, "")
  }

  function Join(ws: seq<string>): string {
    if |ws| == 0 then "" else if |ws| == 1 then ws[0] else ws[0] + " " + Join(ws[1..])
  }

  function LeftStrip(s: string): string {
    if |s| > 0 && IsSpace(s[0]) then LeftStrip(s[1..]) else s
  }

  function RightStrip(s: string): string {
    if |s| > 0 && IsSpace(s[|s| - 1]) then RightStrip(s[..|s| - 1]) else s
  }

  function Strip(s: string): string {
    RightStrip(LeftStrip(s))
  }

  /** Reading a space-free prefix only extends the current item. */
  lemma {:induction false} SplitPrefix(w: string, rest: string, word: string)
    requires Spaceless(w)
    ensures SplitFrom(w + rest, word) == SplitFrom(rest, word + w)
  {
    if |w| == 0 {
      assert w + rest == rest && word + w == word;
    } else {
      assert (w + rest)[1..] == w[1..] + rest && word + [w[0]] + w[1..] == word + w;
      SplitPrefix(w[1..], rest, word + [w[0]]);
    }
  }

  /** Splitting undoes joining. */
  lemma {:induction false} SplitJoin(ws: seq<string>)
    requires AllWords(ws)
    ensures Split(Join(ws)) == ws
  {
    if |ws| == 1 {
      SplitPrefix(ws[0], "", "");
      assert ws[0] + "" == ws[0] && "" + ws[0] == ws[0];
    } else if |ws| > 1 {
      var rest := " " + Join(ws[1..]);
      SplitPrefix(ws[0], rest, "");
      assert ws[0] + " " + Join(ws[1..]) == ws[0] + rest && "" + ws[0] == ws[0];
      assert rest[1..] == Join(ws[1..]);
      SplitJoin(ws[1..]);
      assert [ws[0]] + ws[1..] == ws;
    }
  }

  lemma {:induction false} SplitFromWords(s: string, word: string)
    requires Spaceless(word)
    ensures AllWords(SplitFrom(s, word))
    decreases |s|
  {
    if |s| > 0 {
      if IsSpace(s[0]) {
        SplitFromWords(s[1..], "");
      } else {
        SplitFromWords(s[1..], word + [s[0]]);
      }
    }
  }

  lemma SplitWords(s: string)
    ensures AllWords(Split(s))
  {
    SplitFromWords(s, "");
  }

  lemma {:induction false} TrailingSpace(s: string, word: string)
    requires |s| > 0 && IsSpace(s[|s| - 1])
    ensures SplitFrom(s, word) == SplitFrom(s[..|s| - 1], word)
    decreases |s|
  {
    var front := s[..|s| - 1];
    if |s| > 1 {
      assert s[1..][..|s| - 2] == front[1..];
      if IsSpace(s[0]) {
        TrailingSpace(s[1..], "");
      } else {
        TrailingSpace(s[1..], word + [s[0]]);
      }
    }
  }

  lemma {:induction false} SplitRightStrip(s: string)
    ensures Split(RightStrip(s)) == Split(s)
  {
    if |s| > 0 && IsSpace(s[|s| - 1]) {
      TrailingSpace(s, "");
      SplitRightStrip(s[..|s| - 1]);
    }
  }

  lemma {:induction false} SplitLeftStrip(s: string)
    ensures Split(LeftStrip(s)) == Split(s)
  {
    if |s| > 0 && IsSpace(s[0]) {
      SplitLeftStrip(s[1..]);
    }
  }

  /** Surrounding whitespace does not matter to split(). */
  lemma SplitStrip(s: string)
    ensures Split(Strip(s)) == Split(s)
  {
    SplitRightStrip(LeftStrip(s));
    SplitLeftStrip(s);
  }

  // ---- Whitespace by name ----

  /** The ASCII characters Python's str methods count as whitespace. */
  const WHITESPACE := " \t\n\U{0B}\U{0C}\r\U{1C}\U{1D}\U{1E}\U{1F}"

  lemma SpaceByName(c: char)
    ensures IsSpace(c) <==> c in WHITESPACE
  {
  }

  lemma {:induction false} SplitFromAround(a: string, c: char, b: string, word: string)
    requires IsSpace(c)
    ensures SplitFrom(a + [c] + b, word) == SplitFrom(a, word) + Split(b)
    decreases |a|
  {
    hide IsSpace;
    if |a| == 0 {
      assert a + [c] + b == [c] + b && ([c] + b)[1..] == b;
    } else {
      assert (a + [c] + b)[0] == a[0] && (a + [c] + b)[1..] == a[1..] + [c] + b;
      if IsSpace(a[0]) {
        SplitFromAround(a[1..], c, b, "");
      } else {
        SplitFromAround(a[1..], c, b, word + [a[0]]);
      }
    }
  }

  /** A text splits at each of these characters, and a text without them is one item, or none if it is empty. */
  lemma SplitAtSpaces(a: string, c: char, b: string)
    ensures c in WHITESPACE ==> Split(a + [c] + b) == Split(a) + Split(b)
    ensures (forall i | 0 <= i < |a| :: a[i] !in WHITESPACE) ==> Split(a) == if a == "" then [] else [a]
  {
    hide WHITESPACE, IsSpace;
    SpaceByName(c);
    if IsSpace(c) { SplitFromAround(a, c, b, ""); }
    if forall i | 0 <= i < |a| :: a[i] !in WHITESPACE {
      forall i | 0 <= i < |a|
        ensures !IsSpace(a[i])
      {
        SpaceByName(a[i]);
      }
      SplitPrefix(a, "", "");
      assert a + "" == a && "" + a == a;
    }
  }

  /** Trimmed is what the source tests: non-empty and equal to its own strip(). */
  lemma TrimmedIsStripped(s: string)
    ensures Trimmed(s) <==> s != "" && Strip(s) == s
  {
    hide IsSpace;
    StripShorter(s);
  }

  lemma StripShorter(s: string)
    ensures s != "" && IsSpace(s[0]) ==> |Strip(s)| < |s|
    ensures s != "" && !IsSpace(s[0]) && IsSpace(s[|s| - 1]) ==> |Strip(s)| < |s|
  {
    hide IsSpace;
    LeftNoLonger(s);
    RightNoLonger(LeftStrip(s));
    RightNoLonger(s);
    if s != "" {
      LeftNoLonger(s[1..]);
      RightNoLonger(s[..|s| - 1]);
    }
  }

  lemma {:induction false} LeftNoLonger(s: string)
    ensures |LeftStrip(s)| <= |s|
  {
    hide IsSpace;
    if |s| > 0 { LeftNoLonger(s[1..]); }
  }

  lemma {:induction false} RightNoLonger(s: string)
    ensures |RightStrip(s)| <= |s|
  {
    hide IsSpace;
    if |s| > 0 { RightNoLonger(s[..|s| - 1]); }
  }
}
