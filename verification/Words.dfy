/** The parts of Go's strings package that the parsers use. */
module Words {
  import opened Prelude

  /** unicode.IsSpace */
  predicate IsSpace(c: char)
  {
    var n := c as int;
    || 9 <= n <= 13 || n == 0x20 || n == 0x85 || n == 0xA0 || n == 0x1680 || 0x2000 <= n <= 0x200A
    || n == 0x2028 || n == 0x2029 || n == 0x202F || n == 0x205F || n == 0x3000
  }

  /** strings.Index for one character; -1 if it does not occur. */
  function IndexOf(s: string, c: char): (i: int)
    ensures -1 <= i < |s|
    ensures i >= 0 ==> s[i] == c && c !in s[..i]
    ensures i < 0 ==> c !in s
  {
    if s == "" then -1
    else if s[0] == c then 0
    else
      var rest := IndexOf(s[1..], c);
      assert rest >= 0 ==> s[..rest + 1] == [s[0]] + s[1..][..rest];
      assert s == [s[0]] + s[1..];
      if rest < 0 then -1 else rest + 1
  }

  lemma IndexOfAfter(s: string, c: char, t: string)
    requires c !in s
    ensures IndexOf(s + [c] + t, c) == |s|
  {
    var all := s + [c] + t;
    assert all[|s|] == c;
    assert forall k :: 0 <= k < |s| ==> all[k] == s[k];
    assert forall k :: |s| < k <= |all| ==> all[..k][|s|] == c;
  }

  function TrimLeft(s: string): (t: string)
    ensures |t| <= |s|
    ensures t != "" ==> !IsSpace(t[0])
  {
    if s != "" && IsSpace(s[0]) then TrimLeft(s[1..]) else s
  }

  function TrimRight(s: string): string
  {
    if s != "" && IsSpace(Last(s)) then TrimRight(Front(s)) else s
  }

  /** strings.TrimSpace */
  function TrimSpace(s: string): string
  {
    TrimRight(TrimLeft(s))
  }

  function WordLength(s: string): (n: nat)
    ensures n <= |s|
    ensures s != "" && !IsSpace(s[0]) ==> n > 0
  {
    if s == "" || IsSpace(s[0]) then 0 else 1 + WordLength(s[1..])
  }

  /** strings.Fields */
  function Fields(s: string): seq<string>
    decreases |s|
  {
    var t := TrimLeft(s);
    if t == "" then []
    else
      var n := WordLength(t);
      [t[..n]] + Fields(t[n..])
  }

  ghost predicate IsWord(w: string)
  {
    w != "" && forall i :: 0 <= i < |w| ==> !IsSpace(w[i])
  }

  /** Words, each after a space. */
  function Spaced(words: seq<string>): string
  {
    if words == [] then "" else " " + words[0] + Spaced(words[1..])
  }

  lemma {:induction false} WordLengthOfWord(w: string, rest: string)
    requires forall i :: 0 <= i < |w| ==> !IsSpace(w[i])
    requires rest == "" || IsSpace(rest[0])
    ensures WordLength(w + rest) == |w|
  {
    if w == "" {
      assert w + rest == rest;
    } else {
      WordLengthOfWord(w[1..], rest);
      assert (w + rest)[1..] == w[1..] + rest;
    }
  }

  lemma {:induction false} FieldsOfSpaced(words: seq<string>)
    requires forall k :: 0 <= k < |words| ==> IsWord(words[k])
    ensures Fields(Spaced(words)) == words
  {
    if words != [] {
      var w, rest := words[0], Spaced(words[1..]);
      var s := Spaced(words);
      assert IsWord(w);
      assert s[1..] == w + rest;
      assert TrimLeft(s) == w + rest;
      WordLengthOfWord(w, rest);
      assert (w + rest)[..|w|] == w && (w + rest)[|w|..] == rest;
      FieldsOfSpaced(words[1..]);
    }
  }

  lemma TrimLeftTwice(s: string)
    ensures TrimLeft(TrimLeft(s)) == TrimLeft(s)
  {
  }

  lemma {:induction false} SpacedEndsInWord(words: seq<string>)
    requires words != [] && forall k :: 0 <= k < |words| ==> IsWord(words[k])
    ensures Spaced(words) != "" && !IsSpace(Last(Spaced(words)))
  {
    assert IsWord(words[0]);
    var rest := Spaced(words[1..]);
    if |words| > 1 {
      SpacedEndsInWord(words[1..]);
      assert Last(Spaced(words)) == Last(rest);
    } else {
      assert Spaced(words) == " " + words[0];
      assert Last(Spaced(words)) == Last(words[0]);
    }
  }

  lemma {:induction false} TrimLeftKeepsLast(s: string)
    requires s != "" && !IsSpace(Last(s))
    ensures TrimLeft(s) != "" && Last(TrimLeft(s)) == Last(s)
  {
    if IsSpace(s[0]) {
      TrimLeftKeepsLast(s[1..]);
    }
  }

  /** Splitting what was joined gives the words back, even through the trimming that comes first. */
  lemma FieldsOfTrimmed(words: seq<string>)
    requires words != [] && forall k :: 0 <= k < |words| ==> IsWord(words[k])
    ensures Fields(TrimSpace(Spaced(words))) == words
  {
    var s := Spaced(words);
    SpacedEndsInWord(words);
    TrimLeftKeepsLast(s);
    TrimLeftTwice(s);
    FieldsOfSpaced(words);
  }

  ghost predicate AllSpace(s: string)
  {
    forall i :: 0 <= i < |s| ==> IsSpace(s[i])
  }

  lemma {:induction false} TrimLeftEmptiesIff(s: string)
    ensures TrimLeft(s) == "" <==> AllSpace(s)
  {
    if s != "" && IsSpace(s[0]) {
      TrimLeftEmptiesIff(s[1..]);
      assert forall i :: 0 < i < |s| ==> s[i] == s[1..][i - 1];
      assert forall i :: 0 <= i < |s[1..]| ==> s[1..][i] == s[i + 1];
    }
  }

  lemma {:induction false} TrimRightKeepsFirst(s: string)
    requires s != "" && !IsSpace(s[0])
    ensures TrimRight(s) != "" && TrimRight(s)[0] == s[0]
  {
    if IsSpace(Last(s)) {
      TrimRightKeepsFirst(Front(s));
    }
  }

  /** There are no words exactly where there is nothing but white space. */
  lemma NoFieldsIff(s: string)
    ensures Fields(TrimSpace(s)) == [] <==> AllSpace(s)
  {
    TrimLeftEmptiesIff(s);
    var t := TrimLeft(s);
    if t != "" {
      TrimRightKeepsFirst(t);
      assert TrimLeft(TrimRight(t)) == TrimRight(t);
    }
  }

  // ---- What splitting means

  /** The white space of the Unicode standard. */
  lemma SpacesAre(c: char)
    ensures IsSpace(c) <==>
              c in ['\t', '\n', '\U{B}', '\U{C}', '\r', ' ', '\U{85}', '\U{A0}', '\U{1680}', '\U{2000}', '\U{2001}',
                    '\U{2002}', '\U{2003}', '\U{2004}', '\U{2005}', '\U{2006}', '\U{2007}', '\U{2008}', '\U{2009}',
                    '\U{200A}', '\U{2028}', '\U{2029}', '\U{202F}', '\U{205F}', '\U{3000}']
  {
  }

  /** Gaps and words in turn, beginning and ending with a gap. */
  function Weave(gaps: seq<string>, words: seq<string>): string
    requires |gaps| == |words| + 1
  {
    if words == [] then gaps[0] else gaps[0] + words[0] + Weave(gaps[1..], words[1..])
  }

  /** s is these words, with white space between them, and perhaps before and after. */
  ghost predicate Woven(s: string, gaps: seq<string>, words: seq<string>)
  {
    && |gaps| == |words| + 1
    && (forall k :: 0 <= k < |gaps| ==> AllSpace(gaps[k]))
    && (forall k :: 0 < k < |words| ==> gaps[k] != "")
    && (forall k :: 0 <= k < |words| ==> IsWord(words[k]))
    && s == Weave(gaps, words)
  }

  lemma {:induction false} TrimLeftDrops(gap: string, s: string)
    requires AllSpace(gap)
    ensures TrimLeft(gap + s) == TrimLeft(s)
  {
    if gap == "" {
      assert gap + s == s;
    } else {
      assert AllSpace(gap[1..]) by {
        assert forall i :: 0 <= i < |gap[1..]| ==> gap[1..][i] == gap[i + 1];
      }
      TrimLeftDrops(gap[1..], s);
      assert (gap + s)[1..] == gap[1..] + s;
    }
  }

  lemma {:induction false} FieldsOfWoven(s: string, gaps: seq<string>, words: seq<string>)
    requires Woven(s, gaps, words)
    ensures Fields(s) == words
    decreases |words|
  {
    if words == [] {
      TrimLeftEmptiesIff(s);
    } else {
      var w, rest := words[0], Weave(gaps[1..], words[1..]);
      assert s == gaps[0] + (w + rest);
      TrimLeftDrops(gaps[0], w + rest);
      assert IsWord(w) && TrimLeft(w + rest) == w + rest;
      RestStartsWithSpace(gaps, words);
      WordLengthOfWord(w, rest);
      assert (w + rest)[..|w|] == w && (w + rest)[|w|..] == rest;
      InnerGap(gaps, words);
    }
  }

  /** What follows the first word, as one more woven string whose first gap may not be empty. */
  lemma InnerGap(gaps: seq<string>, words: seq<string>)
    requires words != [] && |gaps| == |words| + 1 && Woven(Weave(gaps, words), gaps, words)
    ensures Fields(Weave(gaps[1..], words[1..])) == words[1..]
    decreases |words|, 0
  {
    FieldsOfWoven(Weave(gaps[1..], words[1..]), gaps[1..], words[1..]);
  }

  lemma RestStartsWithSpace(gaps: seq<string>, words: seq<string>)
    requires words != [] && |gaps| == |words| + 1 && Woven(Weave(gaps, words), gaps, words)
    ensures var rest := Weave(gaps[1..], words[1..]); rest == "" || IsSpace(rest[0])
  {
    assert AllSpace(gaps[1]);
    if |words| > 1 {
      assert gaps[1] != "";
      assert Weave(gaps[1..], words[1..])[0] == gaps[1][0];
    }
  }

  /** What TrimLeft drops is white space, and what WordLength counts is a word. */
  lemma {:induction false} TrimLeftSplits(s: string) returns (gap: string)
    ensures AllSpace(gap) && s == gap + TrimLeft(s)
  {
    if s != "" && IsSpace(s[0]) {
      var rest := TrimLeftSplits(s[1..]);
      Cons(s, rest, TrimLeft(s));
      gap := [s[0]] + rest;
    } else {
      gap := "";
    }
  }

  lemma Cons(s: string, gap: string, t: string)
    requires s != "" && IsSpace(s[0]) && AllSpace(gap) && s[1..] == gap + t
    ensures AllSpace([s[0]] + gap) && s == [s[0]] + gap + t
  {
    assert s == [s[0]] + s[1..];
  }

  lemma {:induction false} WordLengthSplits(s: string)
    ensures forall i :: 0 <= i < WordLength(s) ==> !IsSpace(s[i])
    ensures WordLength(s) < |s| ==> IsSpace(s[WordLength(s)])
  {
    if s != "" && !IsSpace(s[0]) {
      WordLengthSplits(s[1..]);
      assert forall i :: 0 < i < |s| ==> s[i] == s[1..][i - 1];
    }
  }

  lemma JoinBegins(gap: string, w: string, rest: string)
    requires w != ""
    ensures gap + w + rest != "" && (gap == "" ==> (gap + w + rest)[0] == w[0])
  {
  }

  /** A woven string with words is not empty, and begins with a word unless its first gap is not empty. */
  lemma WovenBegins(gaps: seq<string>, words: seq<string>)
    requires words != [] && |gaps| == |words| + 1 && IsWord(words[0])
    ensures Weave(gaps, words) != ""
    ensures gaps[0] == "" ==> !IsSpace(Weave(gaps, words)[0])
  {
    JoinBegins(gaps[0], words[0], Weave(gaps[1..], words[1..]));
  }

  /** One more word in front, before a string that is empty or begins with white space. */
  lemma OneWordMore(gap: string, w: string, rest: string, gaps: seq<string>, words: seq<string>)
    requires AllSpace(gap) && IsWord(w) && Woven(rest, gaps, words) && (rest != "" ==> IsSpace(rest[0]))
    ensures Woven(gap + w + rest, [gap] + gaps, [w] + words)
  {
    var all, fields := [gap] + gaps, [w] + words;
    assert all[1..] == gaps && fields[1..] == words;
    if words != [] {
      WovenBegins(gaps, words);
    }
    forall k | 0 < k < |fields|
      ensures all[k] != ""
    {
      assert all[k] == gaps[k - 1];
    }
  }

  lemma FieldsByWord(s: string)
    requires TrimLeft(s) != ""
    ensures var t, n := TrimLeft(s), WordLength(TrimLeft(s));
            0 < n <= |t| && Fields(s) == [t[..n]] + Fields(t[n..])
  {
  }

  lemma {:induction false} FieldsAreWoven(s: string) returns (gaps: seq<string>)
    ensures Woven(s, gaps, Fields(s))
    decreases |s|
  {
    var t := TrimLeft(s);
    var gap := TrimLeftSplits(s);
    if t == "" {
      gaps := [s];
      assert s == gap;
    } else {
      var n := WordLength(t);
      WordLengthSplits(t);
      FieldsByWord(s);
      gaps := FieldsAreWoven(t[n..]);
      OneWordMore(gap, t[..n], t[n..], gaps, Fields(t[n..]));
      Rejoin(s, gap, t, n);
      gaps := [gap] + gaps;
    }
  }

  lemma Rejoin(s: string, gap: string, t: string, n: nat)
    requires s == gap + t && n <= |t|
    ensures gap + t[..n] + t[n..] == s
  {
    assert t == t[..n] + t[n..];
  }

  ghost predicate HasWords(s: string, words: seq<string>)
  {
    exists gaps: seq<string> :: Woven(s, gaps, words)
  }

  /** strings.Fields gives exactly the words of a string. */
  lemma FieldsMeaning(s: string, words: seq<string>)
    ensures Fields(s) == words <==> HasWords(s, words)
  {
    var own := FieldsAreWoven(s);
    if gaps: seq<string> :| Woven(s, gaps, words) {
      FieldsOfWoven(s, gaps, words);
    }
  }

  /** Trimming first makes no difference. */
  lemma {:induction false} TrimRightKeepsFields(s: string)
    ensures Fields(TrimRight(s)) == Fields(s)
  {
    if s != "" && IsSpace(Last(s)) {
      TrimRightKeepsFields(Front(s));
      var words := Fields(Front(s));
      var gaps := FieldsAreWoven(Front(s));
      TrailingSpace(Front(s), gaps, words, Last(s));
      assert s == Front(s) + [Last(s)];
    }
  }

  lemma TrailingSpace(s: string, gaps: seq<string>, words: seq<string>, c: char)
    requires Woven(s, gaps, words) && IsSpace(c)
    ensures Fields(s + [c]) == words
  {
    var wider := gaps[|gaps| - 1] + [c];
    LastGapGrows(gaps, words, c);
    FieldsOfWoven(s + [c], gaps[|gaps| - 1 := wider], words);
  }

  lemma {:induction false} LastGapGrows(gaps: seq<string>, words: seq<string>, c: char)
    requires |gaps| == |words| + 1
    ensures Weave(gaps[|gaps| - 1 := gaps[|gaps| - 1] + [c]], words) == Weave(gaps, words) + [c]
  {
    if words != [] {
      LastGapGrows(gaps[1..], words[1..], c);
      var more := gaps[|gaps| - 1 := gaps[|gaps| - 1] + [c]];
      assert more[1..] == gaps[1..][|gaps[1..]| - 1 := gaps[1..][|gaps[1..]| - 1] + [c]];
    }
  }

  lemma TrimKeepsFields(s: string)
    ensures Fields(TrimSpace(s)) == Fields(s)
  {
    TrimRightKeepsFields(TrimLeft(s));
    TrimLeftTwice(s);
  }
}
