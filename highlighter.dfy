/**
 The duplicate-word highlighter of somnath.py (`highlight_duplicate_text`).
 The text is split on whitespace; the words are emitted in order, separated by
 single spaces; a word that already occurred earlier in the text is wrapped in
 Markdown bold markers `**…**`, while its first occurrence is emitted plain.

 `Highlight` is the specification, stated through the seen-before rule on the
 word sequence (`Marked`); `HighlightDuplicateText` is the loop of
 `highlight_duplicate_text` in somnath.py, with its dictionary of counts and
 its accumulating string, proved equal to it.
 */
module Highlighter {
  import opened Words

  /** The Markdown bold rendering of a word, as `f"**{word}**"` writes it:
      never the word itself, and still a word when the word was one. */
  function Bold(w: string): (r: string)
    ensures r != w
    ensures IsWord(w) ==> IsWord(r)
  {
    var r := "**" + w + "**";
    assert |r| == |w| + 4;
    assert forall k :: 2 <= k < |r| - 2 ==> r[k] == w[k - 2];
    r
  }

  /** The token emitted for word `w` when `seen` are the words before it:
      the word itself exactly when it has not been seen, its bold rendering
      otherwise. */
  function MarkWord(w: string, seen: seq<string>): (r: string)
    ensures r == w <==> w !in seen
    ensures r != w ==> r == Bold(w)
  {
    if w in seen then Bold(w) else w
  }

  /** The emitted tokens, one per word, each decided by the words before it. */
  function Marked(ws: seq<string>): (ts: seq<string>)
    ensures |ts| == |ws|
  {
    if |ws| == 0 then []
    else
      var n := |ws| - 1;
      Marked(ws[..n]) + [MarkWord(ws[n], ws[..n])]
  }

  /** What `highlight_duplicate_text(text)` returns: the marked tokens joined
      by single spaces, so that splitting it again gives back exactly the
      marked tokens. */
  function Highlight(text: string): (r: string)
    ensures Split(r) == Marked(Split(text))
  {
    var ts := Marked(Split(text));
    MarkedAreWords(Split(text));
    SplitJoin(ts);
    Join(ts)
  }

  /** The distinct words of a sequence. */
  function Distinct(ws: seq<string>): set<string> {
    set w | w in ws
  }

  /** The number of positions where two equally long token sequences differ. */
  function Differences(a: seq<string>, b: seq<string>): nat
    requires |a| == |b|
  {
    if |a| == 0 then 0
    else
      var n := |a| - 1;
      Differences(a[..n], b[..n]) + (if a[n] != b[n] then 1 else 0)
  }

  predicate NoRepeats(ws: seq<string>) {
    forall i, j :: 0 <= i < j < |ws| ==> ws[i] != ws[j]
  }

  // ---------------------------------------------------------------------
  // The loop of highlight_duplicate_text

  /** The loop of `highlight_duplicate_text`: `wordCount` plays the dictionary
      `word_count`, `acc` the string `highlighted_text`. After the first `k`
      words, the dictionary's keys are exactly the distinct words seen so far
      and each value is that word's number of occurrences among them. */
  method HighlightDuplicateText(text: string) returns (highlighted: string)
    ensures highlighted == Highlight(text)
  {
    var words := Split(text);
    var wordCount: map<string, int> := map[];
    var acc := "";
    for k := 0 to |words|
      invariant Tallies(wordCount, words[..k])
      invariant acc == Terminated(Marked(words[..k]))
    {
      var word := words[k];
      assert words[..k + 1] == words[..k] + [word];
      TallyStep(wordCount, words[..k], word);
      AccumulateStep(words, k);
      if word in wordCount {
        wordCount := wordCount[word := wordCount[word] + 1];
        acc := acc + Bold(word) + " ";
      } else {
        wordCount := wordCount[word := 1];
        acc := acc + word + " ";
      }
    }
    highlighted := Strip(acc);
    assert highlighted == Highlight(text) by {
      assert words[..|words|] == words;
      MarkedAreWords(words);
      StripTerminated(Marked(words));
    }
  }

  /** `counts` is the dictionary `word_count` after the words `ws`: its keys
      are exactly the distinct words and each value is that word's number of
      occurrences. */
  ghost predicate Tallies(counts: map<string, int>, ws: seq<string>) {
    && counts.Keys == Distinct(ws)
    && forall w :: w in counts ==> counts[w] == multiset(ws)[w]
  }

  /** One step of the dictionary update: incrementing a present word's count,
      or adding an absent word with count 1, keeps exact counts; and a word is
      a key exactly when it occurred before. */
  lemma TallyStep(counts: map<string, int>, ws: seq<string>, w: string)
    requires Tallies(counts, ws)
    ensures w in counts <==> w in ws
    ensures Tallies(if w in counts then counts[w := counts[w] + 1] else counts[w := 1], ws + [w])
  {
    assert multiset(ws + [w]) == multiset(ws) + multiset{w};
    assert Distinct(ws + [w]) == Distinct(ws) + {w};
  }

  // ---------------------------------------------------------------------
  // Properties of the marking

  /** One step of the loop: the accumulator for `k + 1` words is the one for
      `k` words followed by word `k`'s token and a space. */
  lemma AccumulateStep(ws: seq<string>, k: int)
    requires 0 <= k < |ws|
    ensures Terminated(Marked(ws[..k + 1]))
         == Terminated(Marked(ws[..k])) + MarkWord(ws[k], ws[..k]) + " "
  {
    var seen := ws[..k];
    var token := MarkWord(ws[k], seen);
    assert ws[..k + 1][..k] == seen;
    assert Marked(ws[..k + 1]) == Marked(seen) + [token];
    assert (Marked(seen) + [token])[..k] == Marked(seen);
  }

  /** Token `i` is the word in bold exactly when the word occurs before `i`. */
  lemma {:induction false} MarkedAt(ws: seq<string>, i: int)
    requires 0 <= i < |ws|
    ensures Marked(ws)[i] == if ws[i] in ws[..i] then Bold(ws[i]) else ws[i]
    decreases |ws|
  {
    var n := |ws| - 1;
    if i < n {
      MarkedAt(ws[..n], i);
      assert ws[..n][..i] == ws[..i];
    }
  }

  /** The first occurrence of a word is emitted as it is; every later
      occurrence is emitted in bold. */
  lemma FirstPlainLaterBold(ws: seq<string>, i: int)
    requires 0 <= i < |ws|
    ensures Marked(ws)[i] == ws[i] <==> forall j :: 0 <= j < i ==> ws[j] != ws[i]
    ensures Marked(ws)[i] == Bold(ws[i]) <==> exists j :: 0 <= j < i && ws[j] == ws[i]
  {
    MarkedAt(ws, i);
    if ws[i] in ws[..i] {
      var j :| 0 <= j < i && ws[..i][j] == ws[i];
      assert ws[j] == ws[i];
    } else {
      assert forall j :: 0 <= j < i ==> ws[j] == ws[..i][j];
    }
  }

  /** Marking keeps every word a whitespace-free, non-empty token. */
  lemma MarkedAreWords(ws: seq<string>)
    requires AllWords(ws)
    ensures AllWords(Marked(ws))
  {
    forall i | 0 <= i < |ws| ensures IsWord(Marked(ws)[i]) {
      MarkedAt(ws, i);
    }
  }

  /** The number of bold tokens is the number of words minus the number of
      distinct words. */
  lemma {:induction false} MarkedCount(ws: seq<string>)
    ensures Differences(Marked(ws), ws) == |ws| - |Distinct(ws)|
    decreases |ws|
  {
    if |ws| > 0 {
      var n := |ws| - 1;
      var init := ws[..n];
      MarkedCount(init);
      var ts := Marked(ws);
      assert ts[..n] == Marked(init);
      assert Distinct(ws) == Distinct(init) + {ws[n]} by {
        assert ws == init + [ws[n]];
      }
      assert Bold(ws[n]) != ws[n];
      if ws[n] in init {
        assert Distinct(init) + {ws[n]} == Distinct(init);
      }
    }
  }

  /** No word is marked exactly when no word repeats. */
  lemma MarkedUnchangedIff(ws: seq<string>)
    ensures Marked(ws) == ws <==> NoRepeats(ws)
  {
    if NoRepeats(ws) {
      forall i | 0 <= i < |ws| ensures Marked(ws)[i] == ws[i] {
        FirstPlainLaterBold(ws, i);
      }
    }
    if Marked(ws) == ws {
      forall i, j | 0 <= i < j < |ws| ensures ws[i] != ws[j] {
        FirstPlainLaterBold(ws, j);
      }
    }
  }

  // ---------------------------------------------------------------------
  // Properties of the highlighted text

  /** Splitting the output on whitespace gives one token per input word, in
      order, each the word itself or the word in bold, as decided by `Marked`. */
  lemma TokensCorrespond(text: string)
    ensures Split(Highlight(text)) == Marked(Split(text))
    ensures |Split(Highlight(text))| == |Split(text)|
    ensures forall i :: 0 <= i < |Split(text)| ==>
      Split(Highlight(text))[i] in {Split(text)[i], Bold(Split(text)[i])}
  {
    var ws := Split(text);
    MarkedAreWords(ws);
    SplitJoin(Marked(ws));
    forall i | 0 <= i < |ws| ensures Marked(ws)[i] in {ws[i], Bold(ws[i])} {
      MarkedAt(ws, i);
    }
  }

  /** Empty or whitespace-only text, and only such text, gives the empty string. */
  lemma BlankGivesEmpty(text: string)
    ensures Highlight(text) == "" <==> AllSpace(text)
  {
    var ws := Split(text);
    SplitEmptyIff(text);
    MarkedAreWords(ws);
    JoinEmptyIff(Marked(ws));
  }

  /** The output is the words joined by single spaces, with no marker added,
      exactly when no word repeats. */
  lemma NoRepeatsGivesPlainJoin(text: string)
    ensures Highlight(text) == Join(Split(text)) <==> NoRepeats(Split(text))
  {
    var ws := Split(text);
    MarkedUnchangedIff(ws);
    if Highlight(text) == Join(ws) {
      MarkedAreWords(ws);
      SplitJoin(Marked(ws));
      SplitJoin(ws);
    }
  }

  /** Word identity is exact: "A" and "a" do not mark each other. */
  lemma CaseSensitive()
    ensures Highlight("A a") == "A a"
  {
    var ws := ["A", "a"];
    assert Join(ws) == "A a";
    SplitJoin(ws);
    assert Marked(ws) == ws by {
      assert Marked(ws[..1]) == ["A"];
    }
  }

  /** A repeated word is marked from its second occurrence on. */
  lemma RepeatMarked()
    ensures Highlight("a a b") == "a **a** b"
  {
    RepeatSplit();
    RepeatTokens();
    RepeatJoin();
  }

  lemma RepeatJoin()
    ensures Join(["a", "**a**", "b"]) == "a **a** b"
  {
    var ts := ["a", "**a**", "b"];
    assert ts[1..] == ["**a**", "b"] && ts[1..][1..] == ["b"];
    assert Join(["**a**", "b"]) == "**a** b";
  }

  lemma RepeatSplit()
    ensures Split("a a b") == ["a", "a", "b"]
  {
    var ws := ["a", "a", "b"];
    assert Join(ws) == "a a b";
    SplitJoin(ws);
  }

  lemma RepeatTokens()
    ensures Marked(["a", "a", "b"]) == ["a", "**a**", "b"]
  {
    var ws := ["a", "a", "b"];
    MarkedAt(ws, 0);
    MarkedAt(ws, 1);
    MarkedAt(ws, 2);
    assert ws[..1] == ["a"] && ws[..2] == ["a", "a"];
    assert "b" !in ws[..2];
    assert Bold("a") == "**a**";
  }
}
