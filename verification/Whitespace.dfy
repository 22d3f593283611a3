/** Whitespace, stripping and contiguous pieces of text, as rag/answer_service.py uses them. */
module Whitespace {
  /** What both the regular expression \s and strip() take for whitespace. */
  predicate IsSpace(c: char) {
    || '\U{0009}' <= c <= '\U{000d}' || '\U{001c}' <= c <= '\U{0020}'
    || c in {'\U{0085}', '\U{00a0}', '\U{1680}', '\U{2028}', '\U{2029}', '\U{202f}', '\U{205f}', '\U{3000}'}
    || '\U{2000}' <= c <= '\U{200a}'
  }

  predicate AllSpace(s: string) { forall c | c in s :: IsSpace(c) }

  function TrimLeft(s: string): string {
    if s != [] && IsSpace(s[0]) then TrimLeft(s[1..]) else s
  }

  function TrimRight(s: string): string {
    if s != [] && IsSpace(s[|s| - 1]) then TrimRight(s[..|s| - 1]) else s
  }

  function Strip(s: string): string { TrimRight(TrimLeft(s)) }

  /** Each run of whitespace becomes one blank. */
  function Collapse(s: string): string {
    if s == [] then []
    else if !IsSpace(s[0]) then [s[0]] + Collapse(s[1..])
    else if |s| > 1 && IsSpace(s[1]) then Collapse(s[1..])
    else " " + Collapse(s[1..])
  }

  function NormalizeWhitespace(s: string): string { Strip(Collapse(s)) }

  // ---- Pieces ----

  predicate OccursAt(text: string, piece: string, i: int) {
    0 <= i && i + |piece| <= |text| && text[i..i + |piece|] == piece
  }

  predicate Contains(text: string, piece: string) {
    exists i :: 0 <= i <= |text| && OccursAt(text, piece, i)
  }

  lemma ContainsVia(text: string, before: string, piece: string, after: string)
    requires text == before + piece + after
    ensures Contains(text, piece)
  {
    assert OccursAt(text, piece, |before|);
  }

  lemma ContainsTransitive(a: string, b: string, c: string)
    requires Contains(a, b) && Contains(b, c)
    ensures Contains(a, c)
  {
    var i :| 0 <= i <= |a| && OccursAt(a, b, i);
    var j :| 0 <= j <= |b| && OccursAt(b, c, j);
    var piece := a[i + j..i + j + |c|];
    forall t | 0 <= t < |c| ensures piece[t] == c[t] {
      assert a[i + (j + t)] == b[j + t] && b[j..j + |c|][t] == b[j + t];
    }
    assert piece == c;
    assert OccursAt(a, c, i + j);
  }

  // ---- Stripping ----

  lemma {:induction false} TrimLeftTakes(s: string) returns (before: string)
    ensures s == before + TrimLeft(s) && AllSpace(before)
    ensures TrimLeft(s) != "" ==> !IsSpace(TrimLeft(s)[0])
  {
    if s != [] && IsSpace(s[0]) {
      var b := TrimLeftTakes(s[1..]);
      before := [s[0]] + b;
    } else {
      before := "";
    }
  }

  lemma {:induction false} TrimRightTakes(s: string) returns (after: string)
    ensures s == TrimRight(s) + after && AllSpace(after)
    ensures TrimRight(s) != "" ==> !IsSpace(TrimRight(s)[|TrimRight(s)| - 1])
  {
    if s != [] && IsSpace(s[|s| - 1]) {
      var a := TrimRightTakes(s[..|s| - 1]);
      after := a + [s[|s| - 1]];
    } else {
      after := "";
    }
  }

  /** No whitespace at either end. */
  predicate Trimmed(s: string) {
    s != "" ==> !IsSpace(s[0]) && !IsSpace(s[|s| - 1])
  }

  /** Stripping takes whitespace off both ends, all of it and nothing else. */
  lemma StripIsAPiece(s: string) returns (before: string, after: string)
    ensures s == before + Strip(s) + after && AllSpace(before) && AllSpace(after)
    ensures Trimmed(Strip(s))
  {
    before := TrimLeftTakes(s);
    after := TrimRightTakes(TrimLeft(s));
    assert Strip(s) != "" ==> Strip(s)[0] == TrimLeft(s)[0];
  }

  lemma NothingLeftMeansAllSpace(s: string)
    ensures Strip(s) == "" <==> AllSpace(s)
  {
    var before, after := StripIsAPiece(s);
    if Strip(s) != "" { assert s[|before|] == Strip(s)[0]; }
  }

  // ---- Normalising ----

  /** Length of the run of characters other than whitespace at the start. */
  function RunLength(s: string): (n: nat)
    ensures n <= |s|
  {
    if s == [] || IsSpace(s[0]) then 0 else 1 + RunLength(s[1..])
  }

  function Words(s: string): seq<string>
    decreases |s|
  {
    if s == [] then []
    else if IsSpace(s[0]) then Words(s[1..])
    else [s[..RunLength(s)]] + Words(s[RunLength(s)..])
  }

  function Join(parts: seq<string>): string {
    if parts == [] then ""
    else if |parts| == 1 then parts[0]
    else parts[0] + " " + Join(parts[1..])
  }

  lemma {:induction false} CollapseRun(s: string)
    ensures Collapse(s) == s[..RunLength(s)] + Collapse(s[RunLength(s)..])
    ensures RunLength(s) < |s| ==> IsSpace(s[RunLength(s)])
  {
    hide IsSpace;
    if s != [] && !IsSpace(s[0]) {
      CollapseRun(s[1..]);
      assert s[1..][RunLength(s[1..])..] == s[RunLength(s)..];
      assert s[..RunLength(s)] == [s[0]] + s[1..][..RunLength(s[1..])];
    } else {
      assert s[0..] == s;
    }
  }

  /** Leading whitespace becomes one blank, and gives no word. */
  lemma {:induction false} LeadingSpace(s: string)
    requires s != [] && IsSpace(s[0])
    ensures Collapse(s) == " " + Collapse(TrimLeft(s))
    ensures Words(s) == Words(TrimLeft(s))
    ensures |TrimLeft(s)| < |s|
    ensures TrimLeft(s) != [] ==> !IsSpace(TrimLeft(s)[0])
  {
    if |s| > 1 && IsSpace(s[1]) {
      LeadingSpace(s[1..]);
    } else {
      assert TrimLeft(s) == s[1..];
    }
  }

  lemma {:induction false} TrimRightAppend(a: string, b: string)
    requires TrimRight(b) != ""
    ensures TrimRight(a + b) == a + TrimRight(b)
  {
    if b != [] && IsSpace(b[|b| - 1]) {
      assert (a + b)[..|a + b| - 1] == a + b[..|b| - 1];
      TrimRightAppend(a, b[..|b| - 1]);
    }
  }

  lemma CollapseStarts(s: string)
    requires s != [] && !IsSpace(s[0])
    ensures Collapse(s) != "" && Collapse(s)[0] == s[0] && TrimLeft(Collapse(s)) == Collapse(s)
  {
  }

  lemma BlankGoes(word: string)
    ensures TrimRight(word + " ") == TrimRight(word)
  {
    assert (word + " ")[..|word|] == word;
  }

  lemma WordsStart(s: string)
    requires s != [] && !IsSpace(s[0])
    ensures Words(s) == [s[..RunLength(s)]] + Words(s[RunLength(s)..])
    ensures Words([]) == [] && Collapse([]) == []
  {
  }

  /** What remains after a word: nothing, or one blank and the next word. */
  lemma WordsFromAWord(s: string)
    requires s != [] && !IsSpace(s[0])
    ensures TrimRight(Collapse(s)) == Join(Words(s)) && Words(s) != [] && Join(Words(s)) != ""
    decreases |s|
  {
    hide IsSpace;
    hide RunLength;
    hide Collapse;
    hide Words;
    hide TrimRight;
    hide TrimLeft;
    var word, rest := s[..RunLength(s)], s[RunLength(s)..];
    CollapseRun(s);
    RunIsSolid(s);
    WordsStart(s);
    if rest == [] {
      assert word + [] == word;
      assert Words(s) == [word];
    } else {
      LeadingSpace(rest);
      var next := TrimLeft(rest);
      assert Collapse(s) == word + " " + Collapse(next);
      if next == [] {
        assert word + " " + [] == word + " ";
        BlankGoes(word);
        assert Words(s) == [word];
      } else {
        WordsFromAWord(next);
        TrimRightAppend(word + " ", Collapse(next));
        JoinMore(word, Words(next));
      }
    }
  }

  lemma RunIsSolid(s: string)
    requires s != [] && !IsSpace(s[0])
    ensures RunLength(s) > 0 && TrimRight(s[..RunLength(s)]) == s[..RunLength(s)]
  {
    RunHasNoSpace(s, RunLength(s) - 1);
  }

  lemma {:induction false} RunHasNoSpace(s: string, i: nat)
    requires i < RunLength(s)
    ensures !IsSpace(s[i])
  {
    if i > 0 { RunHasNoSpace(s[1..], i - 1); }
  }

  lemma JoinMore(word: string, words: seq<string>)
    requires words != []
    ensures Join([word] + words) == word + " " + Join(words)
  {
    assert ([word] + words)[1..] == words;
  }

  /** Normalising a text is joining its words with single blanks. */
  lemma NormalizingJoinsTheWords(s: string)
    ensures NormalizeWhitespace(s) == Join(Words(s))
  {
    if s == [] {
    } else if IsSpace(s[0]) {
      LeadingSpace(s);
      var next := TrimLeft(s);
      assert (" " + Collapse(next))[1..] == Collapse(next);
      assert TrimLeft(Collapse(s)) == TrimLeft(Collapse(next));
      if next != [] {
        CollapseStarts(next);
        WordsFromAWord(next);
      }
    } else {
      CollapseStarts(s);
      WordsFromAWord(s);
    }
  }

  // ---- The characters other than whitespace ----

  function Solid(s: string): string {
    if s == [] then [] else (if IsSpace(s[0]) then [] else [s[0]]) + Solid(s[1..])
  }

  lemma {:induction false} SolidAppend(a: string, b: string)
    ensures Solid(a + b) == Solid(a) + Solid(b)
  {
    if a == [] {
      assert a + b == b;
    } else {
      assert (a + b)[1..] == a[1..] + b;
      SolidAppend(a[1..], b);
    }
  }

  lemma {:induction false} CollapseKeepsSolid(s: string)
    ensures Solid(Collapse(s)) == Solid(s)
  {
    if s != [] {
      CollapseKeepsSolid(s[1..]);
      if !IsSpace(s[0]) {
        SolidAppend([s[0]], Collapse(s[1..]));
      } else if !(|s| > 1 && IsSpace(s[1])) {
        SolidAppend(" ", Collapse(s[1..]));
      }
    }
  }

  lemma {:induction false} NoSolid(s: string)
    requires AllSpace(s)
    ensures Solid(s) == ""
  {
    if s != [] { NoSolid(s[1..]); }
  }

  lemma NormalizingKeepsSolid(s: string)
    ensures Solid(NormalizeWhitespace(s)) == Solid(s)
  {
    CollapseKeepsSolid(s);
    var before, after := StripIsAPiece(Collapse(s));
    SolidAppend(before + NormalizeWhitespace(s), after);
    SolidAppend(before, NormalizeWhitespace(s));
    NoSolid(before);
    NoSolid(after);
  }

  /** Quoting a normalised text copies its characters: a piece of it, whitespace aside, is a piece of the original. */
  lemma QuotedCharactersAreCopied(text: string, quote: string)
    requires Contains(NormalizeWhitespace(text), NormalizeWhitespace(quote))
    ensures Contains(Solid(text), Solid(quote))
  {
    NormalizingKeepsSolid(text);
    NormalizingKeepsSolid(quote);
    SolidKeepsPieces(NormalizeWhitespace(text), NormalizeWhitespace(quote));
  }

  lemma SolidKeepsPieces(t: string, q: string)
    requires Contains(t, q)
    ensures Contains(Solid(t), Solid(q))
  {
    hide Solid;
    var i :| 0 <= i <= |t| && OccursAt(t, q, i);
    var before, after := t[..i], t[i + |q|..];
    assert t == before + q + after;
    SolidAppend(before + q, after);
    SolidAppend(before, q);
    ContainsVia(Solid(t), Solid(before), Solid(q), Solid(after));
  }
}
