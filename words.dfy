/**
 The string primitives the duplicate-word highlighter relies on, with the
 meaning Python gives them: `str.split()` with no separator (split on runs of
 whitespace, drop empty pieces), `str.strip()` with no argument (remove
 leading and trailing whitespace), and joining words with single spaces.
 */
module Words {

  /** Characters for which Python's `str.isspace()` holds; both `split()` and
      `strip()` use this classification. */
  predicate IsSpace(c: char) {
    || ('\t' <= c <= '\r')                  // U+0009 .. U+000D
    || ('\U{1C}' <= c <= ' ')               // U+001C .. U+0020
    || c == '\U{85}' || c == '\U{A0}' || c == '\U{1680}'
    || ('\U{2000}' <= c <= '\U{200A}')
    || c == '\U{2028}' || c == '\U{2029}' || c == '\U{202F}'
    || c == '\U{205F}' || c == '\U{3000}'
  }

  /** No printable ASCII character, in particular not the `*` of a Markdown
      marker, is whitespace. */
  lemma PrintableAsciiNotSpace(c: char)
    requires '!' <= c <= '~'
    ensures !IsSpace(c)
  {
  }

  predicate NoSpace(s: string) {
    forall i :: 0 <= i < |s| ==> !IsSpace(s[i])
  }

  predicate AllSpace(s: string) {
    forall i :: 0 <= i < |s| ==> IsSpace(s[i])
  }

  /** A word as `split()` produces it: non-empty, without whitespace. */
  predicate IsWord(w: string) {
    |w| > 0 && NoSpace(w)
  }

  predicate AllWords(ws: seq<string>) {
    forall i :: 0 <= i < |ws| ==> IsWord(ws[i])
  }

  /** The longest prefix of `s` that holds no whitespace. */
  function LeadingWord(s: string): (w: string)
    ensures |w| <= |s| && w == s[..|w|]
    ensures NoSpace(w)
    ensures |w| < |s| ==> IsSpace(s[|w|])
    ensures |s| > 0 && !IsSpace(s[0]) ==> |w| > 0
  {
    if |s| == 0 || IsSpace(s[0]) then "" else [s[0]] + LeadingWord(s[1..])
  }

  /** Python's `s.split()`: the maximal whitespace-free runs of `s`, in order. */
  function Split(s: string): (ws: seq<string>)
    ensures AllWords(ws)
    decreases |s|
  {
    if |s| == 0 then []
    else if IsSpace(s[0]) then Split(s[1..])
    else
      var w := LeadingWord(s);
      [w] + Split(s[|w|..])
  }

  /** The words joined by single spaces, as `" ".join(ws)`. */
  function Join(ws: seq<string>): string {
    if |ws| == 0 then ""
    else if |ws| == 1 then ws[0]
    else ws[0] + " " + Join(ws[1..])
  }

  /** Every word followed by one space: what accumulating `word + " "` builds.
      It is empty for no words and otherwise ends in the space after the last
      word. */
  function Terminated(ws: seq<string>): (r: string)
    ensures |ws| == 0 <==> r == ""
    ensures |ws| > 0 ==> |r| > 0 && r[|r| - 1] == ' '
  {
    if |ws| == 0 then "" else Terminated(ws[..|ws| - 1]) + ws[|ws| - 1] + " "
  }

  /** The number of whitespace characters `s` starts with. */
  function LeadingSpaces(s: string): (n: nat)
    ensures n <= |s|
    ensures forall k :: 0 <= k < n ==> IsSpace(s[k])
    ensures n < |s| ==> !IsSpace(s[n])
  {
    if |s| > 0 && IsSpace(s[0]) then 1 + LeadingSpaces(s[1..]) else 0
  }

  /** The number of whitespace characters `s` ends with. */
  function TrailingSpaces(s: string): (n: nat)
    ensures n <= |s|
    ensures forall k :: |s| - n <= k < |s| ==> IsSpace(s[k])
    ensures n < |s| ==> !IsSpace(s[|s| - n - 1])
  {
    if |s| > 0 && IsSpace(s[|s| - 1]) then 1 + TrailingSpaces(s[..|s| - 1]) else 0
  }

  /** `s` with its leading whitespace removed. */
  function TrimStart(s: string): (r: string)
    ensures |r| <= |s| && r == s[|s| - |r|..]
    ensures forall k :: 0 <= k < |s| - |r| ==> IsSpace(s[k])
    ensures |r| > 0 ==> !IsSpace(r[0])
  {
    s[LeadingSpaces(s)..]
  }

  /** `s` with its trailing whitespace removed. */
  function TrimEnd(s: string): (r: string)
    ensures |r| <= |s| && r == s[..|r|]
    ensures forall k :: |r| <= k < |s| ==> IsSpace(s[k])
    ensures |r| > 0 ==> !IsSpace(r[|r| - 1])
  {
    s[..|s| - TrailingSpaces(s)]
  }

  /** Python's `s.strip()`. */
  function Strip(s: string): (r: string)
    ensures |r| > 0 ==> !IsSpace(r[0]) && !IsSpace(r[|r| - 1])
    ensures |r| == 0 <==> AllSpace(s)
  {
    var t := TrimStart(s);
    var r := TrimEnd(t);
    assert |r| == 0 ==> |t| == 0;
    assert AllSpace(s) ==> |t| == 0;
    r
  }

  /** The characters of `s` that are not whitespace, in order. */
  function NonSpace(s: string): (r: string)
    ensures NoSpace(r)
  {
    if |s| == 0 then ""
    else if IsSpace(s[0]) then NonSpace(s[1..])
    else [s[0]] + NonSpace(s[1..])
  }

  /** The words written one after another. */
  function Concat(ws: seq<string>): string {
    if |ws| == 0 then "" else ws[0] + Concat(ws[1..])
  }

  // ---------------------------------------------------------------------
  // Properties of split

  /** `split()` yields no words exactly when the text is empty or holds only
      whitespace. */
  lemma {:induction false} SplitEmptyIff(s: string)
    ensures Split(s) == [] <==> AllSpace(s)
    decreases |s|
  {
    if |s| > 0 && IsSpace(s[0]) {
      SplitEmptyIff(s[1..]);
      assert AllSpace(s) <==> AllSpace(s[1..]) by {
        if AllSpace(s[1..]) {
          forall k | 0 <= k < |s| ensures IsSpace(s[k]) {
            if k > 0 { assert s[k] == s[1..][k - 1]; }
          }
        }
      }
    }
  }

  lemma {:induction false} NonSpaceAppend(a: string, b: string)
    ensures NonSpace(a + b) == NonSpace(a) + NonSpace(b)
    decreases |a|
  {
    if |a| > 0 {
      assert (a + b)[1..] == a[1..] + b;
      NonSpaceAppend(a[1..], b);
    } else {
      assert a + b == b;
    }
  }

  lemma {:induction false} NonSpaceOfWord(w: string)
    requires NoSpace(w)
    ensures NonSpace(w) == w
    decreases |w|
  {
    if |w| > 0 {
      NonSpaceOfWord(w[1..]);
      assert w == [w[0]] + w[1..];
    }
  }

  /** Splitting loses and adds no character other than whitespace: the words,
      written without separators, are the non-whitespace characters of the text. */
  lemma {:induction false} SplitKeepsNonSpace(s: string)
    ensures Concat(Split(s)) == NonSpace(s)
    decreases |s|
  {
    if |s| == 0 {
    } else if IsSpace(s[0]) {
      SplitKeepsNonSpace(s[1..]);
    } else {
      var w := LeadingWord(s);
      var rest := s[|w|..];
      SplitKeepsNonSpace(rest);
      assert s == w + rest;
      NonSpaceAppend(w, rest);
      NonSpaceOfWord(w);
      var ws := Split(s);
      assert ws == [w] + Split(rest);
      assert ws[1..] == Split(rest);
    }
  }

  lemma {:induction false} LeadingWordOf(w: string, t: string)
    requires NoSpace(w)
    requires |t| > 0 ==> IsSpace(t[0])
    ensures LeadingWord(w + t) == w
    decreases |w|
  {
    if |w| > 0 {
      assert (w + t)[1..] == w[1..] + t;
      LeadingWordOf(w[1..], t);
      assert w == [w[0]] + w[1..];
    } else {
      assert w + t == t;
    }
  }

  /** A word followed by whitespace or nothing is split off as the first word. */
  lemma SplitAfterWord(w: string, t: string)
    requires IsWord(w)
    requires |t| > 0 ==> IsSpace(t[0])
    ensures Split(w + t) == [w] + Split(t)
  {
    var s := w + t;
    LeadingWordOf(w, t);
    assert s[0] == w[0];
    assert s[|w|..] == t;
  }

  /** Leading whitespace is skipped by split. */
  lemma SplitAfterSpace(c: char, t: string)
    requires IsSpace(c)
    ensures Split([c] + t) == Split(t)
  {
    assert ([c] + t)[1..] == t;
  }

  /** Splitting words joined by single spaces gives the words back. */
  lemma {:induction false} SplitJoin(ws: seq<string>)
    requires AllWords(ws)
    ensures Split(Join(ws)) == ws
    decreases |ws|
  {
    if |ws| == 1 {
      SplitAfterWord(ws[0], "");
      assert ws[0] + "" == ws[0];
    } else if |ws| > 1 {
      var rest := ws[1..];
      assert AllWords(rest) by {
        forall i | 0 <= i < |rest| ensures IsWord(rest[i]) {
          assert rest[i] == ws[i + 1];
        }
      }
      var tail := " " + Join(rest);
      assert Join(ws) == ws[0] + tail;
      SplitAfterWord(ws[0], tail);
      SplitAfterSpace(' ', Join(rest));
      SplitJoin(rest);
      assert ws == [ws[0]] + rest;
    }
  }

  // ---------------------------------------------------------------------
  // Properties of join and of strip

  lemma {:induction false} JoinSnoc(ws: seq<string>, w: string)
    requires |ws| > 0
    ensures Join(ws + [w]) == Join(ws) + " " + w
    decreases |ws|
  {
    if |ws| > 1 {
      assert (ws + [w])[1..] == ws[1..] + [w];
      JoinSnoc(ws[1..], w);
    }
  }

  /** Accumulating `word + " "` per word gives the joined words plus one space. */
  lemma {:induction false} TerminatedIsJoinPlusSpace(ws: seq<string>)
    requires |ws| > 0
    ensures Terminated(ws) == Join(ws) + " "
    decreases |ws|
  {
    var n := |ws| - 1;
    if n > 0 {
      TerminatedIsJoinPlusSpace(ws[..n]);
      JoinSnoc(ws[..n], ws[n]);
      assert ws[..n] + [ws[n]] == ws;
    }
  }

  /** Joined words start with the first word's first character and end with
      the last word's last character. */
  lemma {:induction false} JoinEnds(ws: seq<string>)
    requires |ws| > 0 && AllWords(ws)
    ensures |Join(ws)| > 0
    ensures Join(ws)[0] == ws[0][0]
    ensures Join(ws)[|Join(ws)| - 1] == ws[|ws| - 1][|ws[|ws| - 1]| - 1]
    decreases |ws|
  {
    if |ws| > 1 {
      assert AllWords(ws[1..]) by {
        forall i | 0 <= i < |ws| - 1 ensures IsWord(ws[1..][i]) {
          assert ws[1..][i] == ws[i + 1];
        }
      }
      JoinEnds(ws[1..]);
    }
  }

  /** Joined words are empty exactly when there are no words. */
  lemma JoinEmptyIff(ws: seq<string>)
    requires AllWords(ws)
    ensures Join(ws) == "" <==> ws == []
  {
    if ws != [] {
      TerminatedIsJoinPlusSpace(ws);
      JoinEnds(ws);
    }
  }

  /** Stripping the accumulated `word + " "` string leaves the words joined by
      single spaces: the one trailing space is the only whitespace removed. */
  lemma StripTerminated(ws: seq<string>)
    requires AllWords(ws)
    ensures Strip(Terminated(ws)) == Join(ws)
  {
    if ws != [] {
      TerminatedIsJoinPlusSpace(ws);
      JoinEnds(ws);
      var j := Join(ws);
      var s := j + " ";
      var t := TrimStart(s);
      assert !IsSpace(s[0]);
      assert t == s;
      var r := TrimEnd(s);
      assert !IsSpace(s[|j| - 1]);
      assert |r| >= |j|;
      assert |r| != |j| + 1;
      assert r == s[..|j|] == j;
    }
  }

  /** `strip()` returns a contiguous piece of the text, and everything it
      removes before and after that piece is whitespace. */
  lemma {:induction false} StripInfix(s: string) returns (i: int, j: int)
    ensures 0 <= i <= j <= |s|
    ensures Strip(s) == s[i..j]
    ensures AllSpace(s[..i]) && AllSpace(s[j..])
  {
    i := |s| - |TrimStart(s)|;
    j := i + |Strip(s)|;
    assert Strip(s) == s[i..j] by {
      StripSlice(s);
    }
    assert AllSpace(s[..i]) by {
      PrefixAllSpace(s, i);
    }
    assert AllSpace(s[j..]) by {
      StripTail(s);
    }
  }

  /** The stripped text sits in `s` right after the leading whitespace. */
  lemma {:induction false} StripSlice(s: string)
    ensures var i := |s| - |TrimStart(s)|;
      i + |Strip(s)| <= |s| && Strip(s) == s[i..i + |Strip(s)|]
  {
    var t := TrimStart(s);
    var r := TrimEnd(t);
    assert Strip(s) == r;
    PrefixOfSuffix(s, |s| - |t|, |r|);
  }

  /** What follows the stripped text in `s` is whitespace. */
  lemma {:induction false} StripTail(s: string)
    ensures var j := |s| - |TrimStart(s)| + |Strip(s)|;
      j <= |s| && AllSpace(s[j..])
  {
    var t := TrimStart(s);
    var r := TrimEnd(t);
    assert Strip(s) == r;
    var i := |s| - |t|;
    forall k | i + |r| <= k < |s| ensures IsSpace(s[k]) {
      assert s[k] == t[k - i];
    }
    SuffixAllSpace(s, i + |r|);
  }

  lemma PrefixOfSuffix(s: string, i: int, n: int)
    requires 0 <= i && 0 <= n && i + n <= |s|
    ensures s[i..][..n] == s[i..i + n]
  {
    forall k | 0 <= k < n ensures s[i..][..n][k] == s[i..i + n][k] {
      assert s[i..][..n][k] == s[i + k];
    }
  }

  lemma PrefixAllSpace(s: string, n: int)
    requires 0 <= n <= |s|
    requires forall k :: 0 <= k < n ==> IsSpace(s[k])
    ensures AllSpace(s[..n])
  {
    forall k | 0 <= k < n ensures IsSpace(s[..n][k]) {
      assert s[..n][k] == s[k];
    }
  }

  lemma SuffixAllSpace(s: string, n: int)
    requires 0 <= n <= |s|
    requires forall k :: n <= k < |s| ==> IsSpace(s[k])
    ensures AllSpace(s[n..])
  {
    forall k | 0 <= k < |s| - n ensures IsSpace(s[n..][k]) {
      assert s[n..][k] == s[n + k];
    }
  }

  // ---------------------------------------------------------------------
  // Where split places the word boundaries

  /** The text `gaps[0] + ws[0] + gaps[1] + ... + ws[n-1] + gaps[n]`. */
  function Interleave(gaps: seq<string>, ws: seq<string>): string
    requires |gaps| == |ws| + 1
  {
    if |ws| == 0 then gaps[0]
    else gaps[0] + ws[0] + Interleave(gaps[1..], ws[1..])
  }

  /** Interleaving words with an empty first gap starts with the first word. */
  lemma InterleaveStart(gaps: seq<string>, ws: seq<string>)
    requires |gaps| == |ws| + 1 && |ws| > 0 && |ws[0]| > 0 && |gaps[0]| == 0
    ensures |Interleave(gaps, ws)| > 0 && Interleave(gaps, ws)[0] == ws[0][0]
  {
    assert Interleave(gaps, ws) == ws[0] + Interleave(gaps[1..], ws[1..]);
  }

  /** Lengthening the first gap by one character lengthens the text at its start. */
  lemma InterleavePrepend(c: char, gaps: seq<string>, ws: seq<string>)
    requires |gaps| == |ws| + 1
    ensures Interleave([[c] + gaps[0]] + gaps[1..], ws) == [c] + Interleave(gaps, ws)
  {
    var longer := [[c] + gaps[0]] + gaps[1..];
    assert longer[1..] == gaps[1..];
  }

  /** Every text is its words separated by runs of whitespace: the text is the
      words of `split()` interleaved with whitespace-only gaps, where every gap
      between two words is non-empty (the words are the maximal runs). */
  lemma {:induction false} SplitRuns(s: string) returns (gaps: seq<string>)
    ensures |gaps| == |Split(s)| + 1
    ensures forall g :: 0 <= g < |gaps| ==> AllSpace(gaps[g])
    ensures forall g :: 0 < g < |gaps| - 1 ==> |gaps[g]| > 0
    ensures s == Interleave(gaps, Split(s))
    decreases |s|
  {
    if |s| == 0 {
      gaps := [""];
    } else if IsSpace(s[0]) {
      var sub := SplitRuns(s[1..]);
      var first := [s[0]] + sub[0];
      gaps := [first] + sub[1..];
      assert AllSpace(first) by {
        forall k | 0 < k < |first| ensures IsSpace(first[k]) {
          assert first[k] == sub[0][k - 1];
        }
      }
      InterleavePrepend(s[0], sub, Split(s[1..]));
      assert s == [s[0]] + s[1..];
    } else {
      var w := LeadingWord(s);
      var rest := s[|w|..];
      var sub := SplitRuns(rest);
      var tail := Split(rest);
      gaps := [""] + sub;
      assert Split(s) == [w] + tail;
      assert |sub| > 1 ==> |sub[0]| > 0 by {
        if |sub| > 1 && |sub[0]| == 0 {
          InterleaveStart(sub, tail);
          assert false;
        }
      }
      assert gaps[1..] == sub;
      assert forall g :: 0 <= g < |gaps| ==> AllSpace(gaps[g]) by {
        forall g | 0 < g < |gaps| ensures AllSpace(gaps[g]) {
          assert gaps[g] == sub[g - 1];
        }
      }
      assert s == Interleave(gaps, Split(s)) by {
        assert Interleave(gaps, [w] + tail) == "" + w + Interleave(sub, tail);
        assert s == w + rest;
      }
    }
  }
}
