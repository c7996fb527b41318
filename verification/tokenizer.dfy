/**
  Whitespace tokenisation as done by Python's `str.split()` called without a
  separator: runs of whitespace separate words, and whitespace at either end
  of the line produces no empty words. Also `" ".join(...)`, its partner.
 */
module Tokenizer {

  /** The characters Python 3's `str.isspace` accepts, which is the table
      `str.split()` uses when no separator is given. */
  predicate IsWhitespace(c: char)
  {
    || '\t' <= c <= '\r'
    || '\U{1C}' <= c <= ' '
    || c == '\U{85}' || c == '\U{A0}' || c == '\U{1680}'
    || '\U{2000}' <= c <= '\U{200A}'
    || c == '\U{2028}' || c == '\U{2029}' || c == '\U{202F}'
    || c == '\U{205F}' || c == '\U{3000}'
  }

  /** A word: what `str.split()` can return as one element. */
  predicate IsWord(w: string)
  {
    |w| > 0 && forall i :: 0 <= i < |w| ==> !IsWhitespace(w[i])
  }

  predicate AllWords(ts: seq<string>)
  {
    forall k :: 0 <= k < |ts| ==> IsWord(ts[k])
  }

  predicate AllWhitespace(s: string)
  {
    forall i :: 0 <= i < |s| ==> IsWhitespace(s[i])
  }

  /** Whitespace occurs only as one plain space between two non-whitespace
      characters: the shape of `" ".join(words)`. The last clause names the
      neighbour as a second bound variable so that its trigger is `s[i], s[j]`
      rather than `s[i + 1]`, which would make the solver instantiate it
      again for every neighbour it produces. */
  ghost predicate SingleSpaced(s: string)
  {
    && (forall i :: 0 <= i < |s| && IsWhitespace(s[i]) ==> s[i] == ' ')
    && (|s| > 0 ==> !IsWhitespace(s[0]) && !IsWhitespace(s[|s| - 1]))
    && (forall i, j :: 0 <= i < j < |s| && j == i + 1 ==> !IsWhitespace(s[i]) || !IsWhitespace(s[j]))
  }

  /** The string with every whitespace character deleted. */
  function RemoveWhitespace(s: string): string
  {
    if |s| == 0 then []
    else (if IsWhitespace(s[0]) then [] else [s[0]]) + RemoveWhitespace(s[1..])
  }

  /** All words written one after another. */
  function Concat(ts: seq<string>): string
  {
    if |ts| == 0 then [] else ts[0] + Concat(ts[1..])
  }

  /** `line.split()`, one character at a time: whitespace is dropped, and a
      non-whitespace character starts a word of its own unless the next
      character is not whitespace either, in which case it joins the word
      that character starts. */
  function Split(s: string): (tokens: seq<string>)
    ensures |s| > 0 && !IsWhitespace(s[0]) ==> |tokens| > 0
    decreases |s|
  {
    if |s| == 0 then []
    else if IsWhitespace(s[0]) then Split(s[1..])
    else
      var rest := Split(s[1..]);
      if |s| > 1 && !IsWhitespace(s[1]) then [[s[0]] + rest[0]] + rest[1..]
      else [[s[0]]] + rest
  }

  /** `" ".join(ts)`: the words with exactly one separator between each
      two of them. */
  function Join(ts: seq<string>): string
  {
    if |ts| == 0 then ""
    else if |ts| == 1 then ts[0]
    else ts[0] + " " + Join(ts[1..])
  }

  /** gaps[0] + tokens[0] + gaps[1] + ... + tokens[n-1] + gaps[n]. */
  function Interleave(gaps: seq<string>, tokens: seq<string>): string
    requires |gaps| == |tokens| + 1
  {
    if |tokens| == 0 then gaps[0]
    else gaps[0] + tokens[0] + Interleave(gaps[1..], tokens[1..])
  }

  /** A way of writing a line as words separated by whitespace: every gap is
      whitespace, the gaps between two words are not empty, and the words are
      words. The outer gaps may be empty. */
  predicate ValidLayout(gaps: seq<string>, tokens: seq<string>)
  {
    && |gaps| == |tokens| + 1
    && AllWords(tokens)
    && (forall k :: 0 <= k < |gaps| ==> AllWhitespace(gaps[k]))
    && (forall k :: 0 < k < |tokens| ==> |gaps[k]| > 0)
  }

  /** The whitespace around and between the words of s, found the way Split
      finds the words. */
  function Gaps(s: string): (gaps: seq<string>)
    ensures |gaps| > 0
    decreases |s|
  {
    if |s| == 0 then [""]
    else
      var g := Gaps(s[1..]);
      if IsWhitespace(s[0]) then [[s[0]] + g[0]] + g[1..]
      else if |s| > 1 && !IsWhitespace(s[1]) then g
      else [""] + g
  }

  /** Split returns words only, and returns none exactly when the line is
      whitespace only. */
  lemma {:induction false} SplitWords(s: string)
    ensures AllWords(Split(s))
    ensures |Split(s)| == 0 <==> AllWhitespace(s)
    decreases |s|
  {
    if |s| > 0 {
      var rest := Split(s[1..]);
      SplitWords(s[1..]);
      assert forall k :: 0 < k < |s| ==> s[1..][k - 1] == s[k];
      if !IsWhitespace(s[0]) {
        var ts := Split(s);
        if |s| > 1 && !IsWhitespace(s[1]) {
          var w := [s[0]] + rest[0];
          assert IsWord(rest[0]);
          assert forall i :: 0 < i < |w| ==> w[i] == rest[0][i - 1];
          assert forall k :: 0 < k < |ts| ==> ts[k] == rest[k];
        } else {
          assert forall k :: 0 < k < |ts| ==> ts[k] == rest[k - 1];
        }
      }
    }
  }

  /** A line of whitespace only has no words. */
  lemma SplitBlank(s: string)
    requires AllWhitespace(s)
    ensures Split(s) == []
  {
    SplitWords(s);
  }

  /** Concatenating the words of a line gives the line with all whitespace
      removed: splitting loses whitespace and nothing else. */
  lemma {:induction false} SplitLosesOnlyWhitespace(s: string)
    ensures Concat(Split(s)) == RemoveWhitespace(s)
    decreases |s|
  {
    if |s| > 0 {
      var rest := Split(s[1..]);
      SplitLosesOnlyWhitespace(s[1..]);
      if !IsWhitespace(s[0]) {
        if |s| > 1 && !IsWhitespace(s[1]) {
          var ts := [[s[0]] + rest[0]] + rest[1..];
          assert ts[1..] == rest[1..];
          assert Concat(ts) == ([s[0]] + rest[0]) + Concat(rest[1..]);
          assert Concat(rest) == rest[0] + Concat(rest[1..]);
          assert ([s[0]] + rest[0]) + Concat(rest[1..]) == [s[0]] + (rest[0] + Concat(rest[1..]));
        } else {
          assert ([[s[0]]] + rest)[1..] == rest;
        }
      }
    }
  }

  /** Whitespace in front of a line does not change its words. */
  lemma {:induction false} SplitSkipsWhitespace(g: string, rest: string)
    requires AllWhitespace(g)
    ensures Split(g + rest) == Split(rest)
    decreases |g|
  {
    if |g| == 0 {
      assert g + rest == rest;
    } else {
      assert (g + rest)[0] == g[0];
      assert (g + rest)[1..] == g[1..] + rest;
      SplitSkipsWhitespace(g[1..], rest);
    }
  }

  /** A word followed by nothing or by whitespace is the line's first word. */
  lemma {:induction false} SplitTakesWord(w: string, rest: string)
    requires IsWord(w)
    requires |rest| == 0 || IsWhitespace(rest[0])
    ensures Split(w + rest) == [w] + Split(rest)
    decreases |w|
  {
    var s := w + rest;
    assert s[0] == w[0];
    if |w| == 1 {
      assert s[1..] == rest;
      assert |s| > 1 ==> s[1] == rest[0];
      assert [s[0]] == w;
    } else {
      assert s[1] == w[1];
      assert s[1..] == w[1..] + rest;
      SplitTakesWord(w[1..], rest);
      assert [s[0]] + w[1..] == w;
    }
  }

  /** A layout with words that begins with an empty gap begins with a word
      character. */
  lemma LayoutStart(gaps: seq<string>, tokens: seq<string>)
    requires ValidLayout(gaps, tokens) && |tokens| > 0
    ensures |gaps[0]| == 0 ==>
      |Interleave(gaps, tokens)| > 0 && !IsWhitespace(Interleave(gaps, tokens)[0])
  {
    assert Interleave(gaps, tokens) == gaps[0] + tokens[0] + Interleave(gaps[1..], tokens[1..]);
    assert IsWord(tokens[0]);
  }

  /** Putting a gap and a word in front of a layout gives a layout, as long
      as the gap between the new word and the old layout is not lost. */
  lemma LayoutCons(g: string, w: string, gaps: seq<string>, tokens: seq<string>)
    requires ValidLayout(gaps, tokens) && AllWhitespace(g) && IsWord(w)
    requires |Interleave(gaps, tokens)| == 0 || IsWhitespace(Interleave(gaps, tokens)[0])
    ensures ValidLayout([g] + gaps, [w] + tokens)
    ensures Interleave([g] + gaps, [w] + tokens) == g + w + Interleave(gaps, tokens)
  {
    var gs, ts := [g] + gaps, [w] + tokens;
    assert AllWords(ts) by {
      forall k | 0 <= k < |ts| ensures IsWord(ts[k]) {
        if k > 0 { assert ts[k] == tokens[k - 1]; }
      }
    }
    assert forall k :: 0 <= k < |gs| ==> AllWhitespace(gs[k]) by {
      forall k | 0 <= k < |gs| ensures AllWhitespace(gs[k]) {
        if k > 0 { assert gs[k] == gaps[k - 1]; }
      }
    }
    assert forall k :: 0 < k < |ts| ==> |gs[k]| > 0 by {
      forall k | 0 < k < |ts| ensures |gs[k]| > 0 {
        assert gs[k] == gaps[k - 1];
        if k == 1 {
          LayoutStart(gaps, tokens);
        }
      }
    }
    assert Interleave(gs, ts) == g + w + Interleave(gaps, tokens) by {
      assert gs[1..] == gaps && ts[1..] == tokens;
    }
  }

  /** More whitespace in front of a layout is still a layout. */
  lemma LayoutWidenFirstGap(x: string, gaps: seq<string>, tokens: seq<string>)
    requires ValidLayout(gaps, tokens) && AllWhitespace(x)
    ensures ValidLayout([x + gaps[0]] + gaps[1..], tokens)
    ensures Interleave([x + gaps[0]] + gaps[1..], tokens) == x + Interleave(gaps, tokens)
  {
    var gs := [x + gaps[0]] + gaps[1..];
    assert gs[1..] == gaps[1..];
    assert forall k :: 0 < k < |gs| ==> gs[k] == gaps[k];
    assert AllWhitespace(gs[0]) by {
      assert AllWhitespace(gaps[0]);
      assert forall i :: |x| <= i < |gs[0]| ==> gs[0][i] == gaps[0][i - |x|];
    }
    if |tokens| > 0 {
      assert Interleave(gs, tokens) == (x + gaps[0]) + tokens[0] + Interleave(gaps[1..], tokens[1..]);
      assert Interleave(gaps, tokens) == gaps[0] + tokens[0] + Interleave(gaps[1..], tokens[1..]);
      assert (x + gaps[0]) + tokens[0] + Interleave(gaps[1..], tokens[1..])
          == x + (gaps[0] + tokens[0] + Interleave(gaps[1..], tokens[1..]));
    }
  }

  /** A non-whitespace prefix glued to the first word of a layout that starts
      with that word is still a layout. */
  lemma LayoutWidenFirstWord(x: string, gaps: seq<string>, tokens: seq<string>)
    requires ValidLayout(gaps, tokens) && |tokens| > 0 && gaps[0] == "" && IsWord(x)
    ensures ValidLayout(gaps, [x + tokens[0]] + tokens[1..])
    ensures Interleave(gaps, [x + tokens[0]] + tokens[1..]) == x + Interleave(gaps, tokens)
  {
    var ts := [x + tokens[0]] + tokens[1..];
    assert ts[1..] == tokens[1..];
    assert forall k :: 0 < k < |ts| ==> ts[k] == tokens[k];
    assert IsWord(ts[0]) by {
      assert IsWord(tokens[0]);
      assert forall i :: |x| <= i < |ts[0]| ==> ts[0][i] == tokens[0][i - |x|];
    }
    assert Interleave(gaps, ts) == "" + (x + tokens[0]) + Interleave(gaps[1..], tokens[1..]);
    assert Interleave(gaps, tokens) == "" + tokens[0] + Interleave(gaps[1..], tokens[1..]);
    assert "" + (x + tokens[0]) + Interleave(gaps[1..], tokens[1..])
        == x + ("" + tokens[0] + Interleave(gaps[1..], tokens[1..]));
  }

  /** Any layout of words and whitespace gaps splits back into exactly its
      words: together with GapsLayout, Split(s) is the one sequence of words
      of which s is a layout. */
  lemma {:induction false} SplitOfLayout(gaps: seq<string>, tokens: seq<string>)
    requires ValidLayout(gaps, tokens)
    ensures Split(Interleave(gaps, tokens)) == tokens
    decreases |tokens|
  {
    if |tokens| == 0 {
      SplitBlank(gaps[0]);
    } else {
      var rest := Interleave(gaps[1..], tokens[1..]);
      assert ValidLayout(gaps[1..], tokens[1..]) by {
        assert forall k :: 0 <= k < |tokens| - 1 ==> tokens[1..][k] == tokens[k + 1];
        assert forall k :: 0 <= k < |gaps| - 1 ==> gaps[1..][k] == gaps[k + 1];
      }
      SplitOfLayout(gaps[1..], tokens[1..]);
      assert IsWord(tokens[0]);
      assert AllWhitespace(gaps[0]);
      if |tokens| > 1 {
        assert gaps[1..][0] == gaps[1];
        assert |gaps[1]| > 0 && IsWhitespace(gaps[1][0]);
        assert rest == gaps[1] + tokens[1] + Interleave(gaps[2..], tokens[2..]) by {
          assert gaps[1..][1..] == gaps[2..];
          assert tokens[1..][1..] == tokens[2..];
        }
        assert rest[0] == gaps[1][0];
      } else {
        assert rest == gaps[1];
        assert |rest| > 0 ==> IsWhitespace(gaps[1][0]);
      }
      assert Interleave(gaps, tokens) == gaps[0] + (tokens[0] + rest);
      SplitSkipsWhitespace(gaps[0], tokens[0] + rest);
      SplitTakesWord(tokens[0], rest);
    }
  }

  /** s is exactly the layout of its words with the gaps Gaps(s). */
  lemma {:induction false} GapsLayout(s: string)
    ensures ValidLayout(Gaps(s), Split(s))
    ensures Interleave(Gaps(s), Split(s)) == s
    decreases |s|
  {
    if |s| > 0 {
      var g, ts := Gaps(s[1..]), Split(s[1..]);
      GapsLayout(s[1..]);
      assert [s[0]] + s[1..] == s;
      if IsWhitespace(s[0]) {
        LayoutWidenFirstGap([s[0]], g, ts);
      } else if |s| > 1 && !IsWhitespace(s[1]) {
        SplitWords(s[1..]);
        assert s[1..][0] == s[1];
        LayoutWidenFirstWord([s[0]], g, ts);
      } else {
        assert |s| > 1 ==> s[1..][0] == s[1];
        LayoutCons("", [s[0]], g, ts);
        assert "" + [s[0]] + s[1..] == s;
      }
    }
  }

  /** A join holds the words' characters, in order, plus one separator
      between each two words. */
  lemma {:induction false} JoinLength(ts: seq<string>)
    ensures |ts| == 0 ==> Join(ts) == ""
    ensures |ts| > 0 ==> |Join(ts)| == |Concat(ts)| + |ts| - 1
    ensures AllWords(ts) ==> RemoveWhitespace(Join(ts)) == Concat(ts)
    decreases |ts|
  {
    if |ts| > 1 {
      JoinLength(ts[1..]);
    }
    if AllWords(ts) {
      SplitJoin(ts);
      SplitLosesOnlyWhitespace(Join(ts));
    }
  }

  /** Joining words gives a single-spaced string, empty only when there are
      no words. */
  lemma {:induction false} JoinSingleSpaced(ts: seq<string>)
    requires AllWords(ts)
    ensures SingleSpaced(Join(ts))
    ensures |Join(ts)| == 0 <==> |ts| == 0
    decreases |ts|
  {
    if |ts| > 1 {
      var t, rest, r := ts[0], Join(ts[1..]), Join(ts);
      assert AllWords(ts[1..]) by {
        forall k | 0 <= k < |ts| - 1 ensures IsWord(ts[1..][k]) {
          assert ts[1..][k] == ts[k + 1];
        }
      }
      JoinSingleSpaced(ts[1..]);
      assert IsWord(t);
      assert r == t + " " + rest;
      assert forall i :: 0 <= i < |t| ==> r[i] == t[i];
      assert forall i :: |t| < i < |r| ==> r[i] == rest[i - |t| - 1];
    }
  }

  /** Joining words with single spaces and splitting again gives the words
      back. */
  lemma {:induction false} SplitJoin(ts: seq<string>)
    requires AllWords(ts)
    ensures Split(Join(ts)) == ts
    decreases |ts|
  {
    if |ts| == 1 {
      assert IsWord(ts[0]);
      SplitTakesWord(ts[0], "");
      assert ts[0] + "" == ts[0];
      assert ts == [ts[0]];
    } else if |ts| > 1 {
      assert AllWords(ts[1..]) by {
        forall k | 0 <= k < |ts| - 1 ensures IsWord(ts[1..][k]) {
          assert ts[1..][k] == ts[k + 1];
        }
      }
      SplitJoin(ts[1..]);
      var rest := Join(ts[1..]);
      assert IsWord(ts[0]);
      assert Join(ts) == ts[0] + (" " + rest);
      assert IsWhitespace(' ') && AllWhitespace(" ");
      SplitTakesWord(ts[0], " " + rest);
      SplitSkipsWhitespace(" ", rest);
      assert ts == [ts[0]] + ts[1..];
    }
  }

  /** A suffix of a single-spaced string that starts at a word character is
      single-spaced. */
  lemma SingleSpacedSuffix(s: string, k: nat)
    requires SingleSpaced(s) && k < |s| && !IsWhitespace(s[k])
    ensures SingleSpaced(s[k..])
  {
    assert forall i :: 0 <= i < |s| - k ==> s[k..][i] == s[k + i];
  }

  lemma JoinCons(w: string, ts: seq<string>)
    requires |ts| > 0
    ensures Join([w] + ts) == w + " " + Join(ts)
  {
    assert ([w] + ts)[1..] == ts;
  }

  lemma SpacedAssoc(x: string, w: string, j: string)
    ensures x + w + " " + j == x + (w + " " + j)
  {
  }

  /** Gluing a prefix to the first word changes the join by that prefix. */
  lemma JoinWidenFirst(x: string, r: seq<string>)
    requires |r| > 0
    ensures Join([x + r[0]] + r[1..]) == x + Join(r)
  {
    var t := r[1..];
    if |r| == 1 {
      assert [x + r[0]] + t == [x + r[0]];
    } else {
      JoinCons(x + r[0], t);
      JoinCons(r[0], t);
      assert [r[0]] + t == r;
      SpacedAssoc(x, r[0], Join(t));
    }
  }

  /** A single-spaced string is the join of its own words. */
  lemma {:induction false} JoinSplit(s: string)
    requires SingleSpaced(s)
    ensures Join(Split(s)) == s
    decreases |s|
  {
    if |s| == 1 {
      assert Split(s) == [[s[0]]];
      assert [s[0]] == s;
    } else if |s| > 1 {
      var rest := Split(s[1..]);
      assert !IsWhitespace(s[0]);
      if !IsWhitespace(s[1]) {
        SingleSpacedSuffix(s, 1);
        JoinSplit(s[1..]);
        JoinWidenFirst([s[0]], rest);
        assert [s[0]] + s[1..] == s;
      } else {
        assert s[1] == ' ' && 2 < |s| && !IsWhitespace(s[2]);
        SingleSpacedSuffix(s, 2);
        JoinSplit(s[2..]);
        assert s[1..][1..] == s[2..];
        assert rest == Split(s[2..]);
        SplitWords(s[2..]);
        assert |rest| > 0;
        assert Split(s) == [[s[0]]] + rest;
        assert ([[s[0]]] + rest)[1..] == rest;
        assert [s[0]] + " " + s[2..] == s;
      }
    }
  }
}
