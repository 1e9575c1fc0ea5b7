/** Splitting a phrase into words and joining words into a phrase. */
module Phrases {
  import opened Base

  /** Unicode `White_Space`, which is what `split_whitespace` splits on. */
  predicate IsSpace(c: char) {
    || '\t' <= c <= '\r' || c == ' ' || c == '\U{85}' || c == '\U{A0}' || c == '\U{1680}'
    || '\U{2000}' <= c <= '\U{200A}' || c == '\U{2028}' || c == '\U{2029}' || c == '\U{202F}'
    || c == '\U{205F}' || c == '\U{3000}'
  }

  predicate IsWord(w: string) {
    w != [] && forall i :: 0 <= i < |w| ==> !IsSpace(w[i])
  }

  predicate AllWords(ws: seq<string>) {
    forall i :: 0 <= i < |ws| ==> IsWord(ws[i])
  }

  /** The words of `s`, where `current` is the part of a word already read. */
  function SplitFrom(s: string, current: string): seq<string> {
    if s == [] then (if current == [] then [] else [current])
    else if IsSpace(s[0]) then (if current == [] then [] else [current]) + SplitFrom(s[1..], [])
    else SplitFrom(s[1..], current + [s[0]])
  }

  function Split(s: string): seq<string> {
    SplitFrom(s, [])
  }

  /** `words.join(" ")`. */
  function Join(ws: seq<string>): string {
    if ws == [] then []
    else if |ws| == 1 then ws[0]
    else ws[0] + " " + Join(ws[1..])
  }

  lemma {:induction false} SplitWord(w: string, rest: string, current: string)
    requires forall i :: 0 <= i < |w| ==> !IsSpace(w[i])
    ensures SplitFrom(w + rest, current) == SplitFrom(rest, current + w)
  {
    if w == [] {
      assert w + rest == rest && current + w == current;
    } else {
      assert (w + rest)[1..] == w[1..] + rest && (w + rest)[0] == w[0];
      SplitWord(w[1..], rest, current + [w[0]]);
      assert current + [w[0]] + w[1..] == current + w;
    }
  }

  /** Joining with single spaces and splitting again gives the words back. */
  lemma {:induction false} SplitJoin(ws: seq<string>)
    requires AllWords(ws)
    ensures Split(Join(ws)) == ws
  {
    if |ws| == 1 {
      SplitWord(ws[0], [], []);
      assert ws[0] + [] == ws[0] && [] + ws[0] == ws[0];
    } else if |ws| > 1 {
      var rest := " " + Join(ws[1..]);
      SplitJoin(ws[1..]);
      SplitWord(ws[0], rest, []);
      assert ws[0] + rest == ws[0] + " " + Join(ws[1..]) && [] + ws[0] == ws[0];
      assert rest[1..] == Join(ws[1..]) && rest[0] == ' ';
    }
  }

  /** What comes out of a split is words. */
  lemma {:induction false} SplitGivesWords(s: string, current: string)
    requires forall i :: 0 <= i < |current| ==> !IsSpace(current[i])
    ensures AllWords(SplitFrom(s, current))
    decreases |s|
  {
    if s != [] {
      SplitGivesWords(s[1..], if IsSpace(s[0]) then [] else current + [s[0]]);
    }
  }

  lemma {:induction false} JoinSnoc(ws: seq<string>, w: string)
    requires ws != []
    ensures Join(ws + [w]) == Join(ws) + " " + w
  {
    if |ws| == 1 {
      assert (ws + [w])[1..] == [w];
    } else {
      assert (ws + [w])[1..] == ws[1..] + [w];
      JoinSnoc(ws[1..], w);
      assert ws[0] + " " + (Join(ws[1..]) + " " + w) == ws[0] + " " + Join(ws[1..]) + " " + w;
    }
  }

  // ---------------------------------------------------------------- any spacing

  /** The code points with the property `White_Space` (section "White_Space" of the Unicode file PropList). */
  const WHITE_SPACE: seq<int> := [
    0x09, 0x0a, 0x0b, 0x0c, 0x0d, 0x20, 0x85, 0xa0, 0x1680,
    0x2000, 0x2001, 0x2002, 0x2003, 0x2004, 0x2005, 0x2006, 0x2007, 0x2008, 0x2009, 0x200a,
    0x2028, 0x2029, 0x202f, 0x205f, 0x3000]

  lemma SpaceIff(c: char)
    ensures IsSpace(c) <==> c as int in WHITE_SPACE
  {
    var code := c as int;
    assert IsSpace(c) <==>
      || 0x09 <= code <= 0x0d || code == 0x20 || code == 0x85 || code == 0xa0 || code == 0x1680
      || 0x2000 <= code <= 0x200a || code == 0x2028 || code == 0x2029 || code == 0x202f
      || code == 0x205f || code == 0x3000;
  }

  predicate IsGap(s: string) {
    forall i :: 0 <= i < |s| ==> s[i] as int in WHITE_SPACE
  }

  /** The words with a gap before each and one at the end. */
  function Spread(gaps: seq<string>, words: seq<string>): string
    requires |gaps| == |words| + 1
  {
    if words == [] then gaps[0] else gaps[0] + words[0] + Spread(gaps[1..], words[1..])
  }

  /** Only the gaps before the first word and after the last may be empty. */
  predicate AreGaps(gaps: seq<string>) {
    forall i :: 0 <= i < |gaps| ==> IsGap(gaps[i]) && (0 < i < |gaps| - 1 ==> gaps[i] != [])
  }

  lemma {:induction false} SplitGap(gap: string, rest: string)
    requires IsGap(gap)
    ensures SplitFrom(gap + rest, []) == SplitFrom(rest, [])
  {
    hide IsSpace;
    if gap == [] {
      assert gap + rest == rest;
    } else {
      SpaceIff(gap[0]);
      assert (gap + rest)[1..] == gap[1..] + rest && (gap + rest)[0] == gap[0];
      SplitGap(gap[1..], rest);
      assert [] + SplitFrom(gap[1..] + rest, []) == SplitFrom(gap[1..] + rest, []);
    }
  }

  /** A word is over at the first character of a gap, and at the end. */
  lemma SplitAfterWord(word: string, gap: string, rest: string)
    requires word != [] && IsGap(gap) && (gap == [] ==> rest == [])
    ensures SplitFrom(gap + rest, word) == [word] + SplitFrom(rest, [])
  {
    hide IsSpace;
    if gap == [] {
      assert gap + rest == [];
      assert [word] + SplitFrom([], []) == [word];
    } else {
      SpaceIff(gap[0]);
      assert (gap + rest)[1..] == gap[1..] + rest && (gap + rest)[0] == gap[0];
      SplitGap(gap[1..], rest);
    }
  }

  /** Whatever white space is around the words, and however much, these are the words. */
  lemma {:induction false} SplitsAtWhiteSpace(gaps: seq<string>, words: seq<string>)
    requires |gaps| == |words| + 1 && AreGaps(gaps) && AllWords(words)
    ensures Split(Spread(gaps, words)) == words
    decreases |words|
  {
    hide IsSpace, IsGap, SplitFrom;
    assert IsGap(gaps[0]);
    if words == [] {
      SplitGap(gaps[0], []);
      assert gaps[0] + [] == gaps[0];
      NothingToSplit();
    } else {
      var rest := Spread(gaps[1..], words[1..]);
      SplitGap(gaps[0], words[0] + rest);
      assert gaps[0] + words[0] + rest == gaps[0] + (words[0] + rest);
      SplitWord(words[0], rest, []);
      assert [] + words[0] == words[0];
      assert IsWord(words[0]) && IsGap(gaps[1]);
      GapsAfter(gaps);
      if words[1..] == [] {
        SplitAfterWord(words[0], gaps[1], []);
        assert rest == gaps[1] && gaps[1] + [] == gaps[1];
        NothingToSplit();
        assert [words[0]] + [] == words;
      } else {
        var tail := words[1] + Spread(gaps[2..], words[2..]);
        assert gaps[1..][1..] == gaps[2..] && words[1..][1..] == words[2..];
        assert rest == gaps[1] + tail by { Regroup(gaps[1], words[1], Spread(gaps[2..], words[2..])); }
        SplitAfterWord(words[0], gaps[1], tail);
        SplitsAtWhiteSpace(gaps[1..], words[1..]);
        SplitGap(gaps[1], tail);
        assert [words[0]] + words[1..] == words;
      }
    }
  }

  lemma GapsAfter(gaps: seq<string>)
    requires |gaps| >= 2 && AreGaps(gaps)
    ensures AreGaps(gaps[1..]) && (|gaps| > 2 ==> gaps[1] != [])
  {
    hide IsGap;
    forall i | 0 <= i < |gaps[1..]|
      ensures IsGap(gaps[1..][i]) && (0 < i < |gaps[1..]| - 1 ==> gaps[1..][i] != [])
    {
      assert gaps[1..][i] == gaps[i + 1];
    }
  }

  lemma NothingToSplit()
    ensures SplitFrom([], []) == []
  {
  }
}
