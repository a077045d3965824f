/**
 * The JavaScript string operations the word counter chains together:
 * the `\s` class, `replace(/\s+/g, ' ')`, `trim()`, `split(sep)`, and a
 * reference definition of the words of a text (its maximal runs of
 * non-whitespace characters) that those operations compute together.
 */
module JsText {

  /**
   * `\s` in a JavaScript regular expression, which is also what `trim()`
   * removes: the WhiteSpace and LineTerminator characters of ECMA-262 —
   * tab, line feed, vertical tab, form feed, carriage return, space,
   * no-break space, ogham space mark, U+2000 to U+200A, line and paragraph
   * separators, narrow no-break space, medium mathematical space,
   * ideographic space and the byte order mark.
   */
  predicate IsWhitespace(c: char)
  {
    var n := c as int;
    n == 0x09 || n == 0x0A || n == 0x0B || n == 0x0C || n == 0x0D || n == 0x20
    || n == 0xA0 || n == 0x1680 || (0x2000 <= n <= 0x200A) || n == 0x2028
    || n == 0x2029 || n == 0x202F || n == 0x205F || n == 0x3000 || n == 0xFEFF
  }

  predicate AllWhitespace(s: string) { forall i :: 0 <= i < |s| ==> IsWhitespace(s[i]) }

  predicate NoWhitespace(s: string) { forall i :: 0 <= i < |s| ==> !IsWhitespace(s[i]) }

  /** A word: a non-empty run of non-whitespace characters. */
  predicate IsWord(w: string) { |w| > 0 && NoWhitespace(w) }

  /** Length of the longest prefix of s made of whitespace. */
  function WhitespaceLength(s: string): (k: nat)
    ensures k <= |s| && AllWhitespace(s[..k])
    ensures k < |s| ==> !IsWhitespace(s[k])
  {
    if |s| == 0 || !IsWhitespace(s[0]) then 0
    else
      var k := 1 + WhitespaceLength(s[1..]);
      assert s[..k] == [s[0]] + s[1..][..k - 1];
      k
  }

  /** Length of the longest prefix of s free of whitespace. */
  function WordLength(s: string): (k: nat)
    ensures k <= |s| && NoWhitespace(s[..k])
    ensures k < |s| ==> IsWhitespace(s[k])
  {
    if |s| == 0 || IsWhitespace(s[0]) then 0
    else
      var k := 1 + WordLength(s[1..]);
      assert s[..k] == [s[0]] + s[1..][..k - 1];
      k
  }

  /** Reference definition: the maximal runs of non-whitespace characters of s, in order. */
  function Words(s: string): (ws: seq<string>)
    ensures forall i :: 0 <= i < |ws| ==> IsWord(ws[i])
    decreases |s|
  {
    if |s| == 0 then []
    else if IsWhitespace(s[0]) then Words(s[1..])
    else [s[..WordLength(s)]] + Words(s[WordLength(s)..])
  }

  /** Every maximal run of whitespace becomes one space; everything else is kept as it is. */
  function CollapseWhitespace(s: string): string
    decreases |s|
  {
    if |s| == 0 then ""
    else if IsWhitespace(s[0]) then " " + CollapseWhitespace(s[WhitespaceLength(s)..])
    else s[..WordLength(s)] + CollapseWhitespace(s[WordLength(s)..])
  }

  /** Drops trailing whitespace. */
  function TrimEnd(s: string): string
  {
    if |s| > 0 && IsWhitespace(s[|s| - 1]) then TrimEnd(s[..|s| - 1]) else s
  }

  /** Drops leading and trailing whitespace, as the string trim method does. */
  function Trim(s: string): string
  {
    TrimEnd(s[WhitespaceLength(s)..])
  }

  /** Index of the first occurrence of c in s. */
  function IndexOf(s: string, c: char): (i: nat)
    requires c in s
    ensures i < |s| && s[i] == c && c !in s[..i]
  {
    if s[0] == c then 0
    else
      var i := 1 + IndexOf(s[1..], c);
      assert s[..i] == [s[0]] + s[1..][..i - 1];
      i
  }

  /** `s.split(sep)` for a one-character separator: the pieces between separators, empty ones included. */
  function Split(s: string, sep: char): (parts: seq<string>)
    ensures |parts| > 0
    ensures forall i :: 0 <= i < |parts| ==> sep !in parts[i]
    decreases |s|
  {
    if sep !in s then [s]
    else
      var i := IndexOf(s, sep);
      [s[..i]] + Split(s[i + 1..], sep)
  }

  /** The pieces put back together, with sep between each two neighbours. */
  function Join(parts: seq<string>, sep: char): string
  {
    if |parts| == 0 then ""
    else if |parts| == 1 then parts[0]
    else parts[0] + [sep] + Join(parts[1..], sep)
  }

  /** The pieces of `split` put back together with the separator give the original string. */
  lemma {:induction false} JoinSplit(s: string, sep: char)
    ensures Join(Split(s, sep), sep) == s
    decreases |s|
  {
    if sep in s {
      var i := IndexOf(s, sep);
      var parts := Split(s, sep);
      var rest := Split(s[i + 1..], sep);
      assert Join(parts, sep) == s[..i] + [sep] + Join(rest, sep) by {
        assert |parts| > 1 && parts[0] == s[..i] && parts[1..] == rest;
      }
      assert Join(rest, sep) == s[i + 1..] by { JoinSplit(s[i + 1..], sep); }
      SplitAround(s, i);
    }
  }

  lemma SplitAround(s: string, i: nat)
    requires i < |s|
    ensures s == s[..i] + [s[i]] + s[i + 1..]
  {
  }

  /** The pieces that are not empty, in order. */
  function NonEmpty(parts: seq<string>): (r: seq<string>)
    ensures forall i :: 0 <= i < |r| ==> |r[i]| > 0
  {
    if |parts| == 0 then []
    else if |parts[0]| > 0 then [parts[0]] + NonEmpty(parts[1..])
    else NonEmpty(parts[1..])
  }

  /** Dropping the empty pieces keeps every other piece exactly as often as it occurs. */
  lemma {:induction false} NonEmptyMultiplicity(parts: seq<string>, p: string)
    ensures multiset(NonEmpty(parts))[p] == if |p| == 0 then 0 else multiset(parts)[p]
  {
    if |parts| > 0 {
      NonEmptyMultiplicity(parts[1..], p);
      assert parts == [parts[0]] + parts[1..];
    }
  }

  /** The token pipeline of the word counter: collapse, trim, split on spaces, drop empty pieces. */
  function Tokens(s: string): seq<string>
  {
    NonEmpty(Split(Trim(CollapseWhitespace(s)), ' '))
  }

  // ----- Shape of the results -----

  /** TrimEnd keeps the longest prefix of s that does not end in whitespace. */
  lemma {:induction false} TrimEndShape(s: string)
    ensures |TrimEnd(s)| <= |s| && TrimEnd(s) == s[..|TrimEnd(s)|]
    ensures |TrimEnd(s)| == 0 || !IsWhitespace(TrimEnd(s)[|TrimEnd(s)| - 1])
    ensures AllWhitespace(s[|TrimEnd(s)|..])
    decreases |s|
  {
    if |s| > 0 && IsWhitespace(s[|s| - 1]) {
      var p := s[..|s| - 1];
      TrimEndShape(p);
      var n := |TrimEnd(p)|;
      assert s[..n] == p[..n];
      forall i | 0 <= i < |s| - n ensures IsWhitespace(s[n..][i]) {
        if n + i < |p| {
          assert s[n..][i] == p[n..][i];
        }
      }
    }
  }

  /** The trimmed text neither starts nor ends with whitespace, and a text that already does not is left as it is. */
  lemma TrimShape(s: string)
    ensures |Trim(s)| == 0 || (!IsWhitespace(Trim(s)[0]) && !IsWhitespace(Trim(s)[|Trim(s)| - 1]))
    ensures |s| == 0 || (!IsWhitespace(s[0]) && !IsWhitespace(s[|s| - 1])) ==> Trim(s) == s
  {
    var k := WhitespaceLength(s);
    var t := s[k..];
    TrimEndShape(t);
    var r := TrimEnd(t);
    if |r| > 0 {
      assert r[0] == t[0];
    }
    if |s| > 0 && !IsWhitespace(s[0]) && !IsWhitespace(s[|s| - 1]) {
      assert k == 0 && t == s;
    }
  }

  // ----- Lemmas about Words -----

  lemma {:induction false} WordsOfWhitespace(s: string)
    requires AllWhitespace(s)
    ensures Words(s) == []
    decreases |s|
  {
    if |s| > 0 {
      WordsOfWhitespace(s[1..]);
    }
  }

  /** A word on its own is its only word. */
  lemma WordsOfWord(w: string)
    requires IsWord(w)
    ensures Words(w) == [w]
  {
    assert w[..|w|] == w;
    WordLengthIs(w, |w|);
    assert w[|w|..] == [];
  }

  lemma {:induction false} WordsSkipWhitespace(s: string, k: nat)
    requires k <= |s| && AllWhitespace(s[..k])
    ensures Words(s) == Words(s[k..])
    decreases k
  {
    if k > 0 {
      assert IsWhitespace(s[..k][0]);
      assert s[1..][..k - 1] == s[..k][1..];
      WordsSkipWhitespace(s[1..], k - 1);
      assert s[1..][k - 1..] == s[k..];
    }
  }

  /** A non-empty run of whitespace separates the words on its two sides. */
  lemma {:induction false} WordsSeparated(x: string, w: string, y: string)
    requires |w| > 0 && AllWhitespace(w)
    ensures Words(x + w + y) == Words(x) + Words(y)
    decreases |x|
  {
    if |x| == 0 {
      assert x + w + y == w + y;
      WordsAfterWhitespace(w, y);
    } else if IsWhitespace(x[0]) {
      assert (x + w + y)[1..] == x[1..] + w + y;
      WordsSeparated(x[1..], w, y);
    } else {
      var k := WordLength(x);
      assert Words(x + w + y) == [x[..k]] + Words(x[k..] + (w + y)) by {
        assert x + w + y == x + (w + y);
        WordFirst(x, w + y);
      }
      assert Words(x[k..] + (w + y)) == Words(x[k..]) + Words(y) by {
        assert x[k..] + (w + y) == x[k..] + w + y;
        WordsSeparated(x[k..], w, y);
      }
      assert Words(x) == [x[..k]] + Words(x[k..]);
    }
  }

  lemma WordsAfterWhitespace(w: string, y: string)
    requires |w| > 0 && AllWhitespace(w)
    ensures Words(w + y) == Words(y)
  {
    var s := w + y;
    assert s[..|w|] == w;
    WordsSkipWhitespace(s, |w|);
    assert s[|w|..] == y;
  }

  /** When x starts with a word and t starts with whitespace, that word is the first word of x + t. */
  lemma WordFirst(x: string, t: string)
    requires |x| > 0 && !IsWhitespace(x[0])
    requires |t| > 0 && IsWhitespace(t[0])
    ensures Words(x + t) == [x[..WordLength(x)]] + Words(x[WordLength(x)..] + t)
  {
    var s := x + t;
    var k := WordLength(x);
    WordLengthAppend(x, t);
    assert s[0] == x[0];
    assert s[..k] == x[..k] && s[k..] == x[k..] + t;
  }

  /** Text that starts with whitespace does not lengthen the word in front of it. */
  lemma {:induction false} WordLengthAppend(x: string, t: string)
    requires |t| > 0 && IsWhitespace(t[0])
    ensures WordLength(x + t) == WordLength(x)
    decreases |x|
  {
    if |x| == 0 {
      assert x + t == t;
    } else {
      assert (x + t)[0] == x[0];
      if !IsWhitespace(x[0]) {
        assert (x + t)[1..] == x[1..] + t;
        WordLengthAppend(x[1..], t);
      }
    }
  }

  /** WordLength is the length of any maximal whitespace-free prefix. */
  lemma {:induction false} WordLengthIs(s: string, k: nat)
    requires k <= |s| && NoWhitespace(s[..k])
    requires k < |s| ==> IsWhitespace(s[k])
    ensures WordLength(s) == k
    decreases k
  {
    if k > 0 {
      assert s[..k][0] == s[0];
      assert s[1..][..k - 1] == s[..k][1..];
      WordLengthIs(s[1..], k - 1);
    }
  }

  lemma WordsWithTrailingWhitespace(x: string, w: string)
    requires AllWhitespace(w)
    ensures Words(x + w) == Words(x)
  {
    if |w| == 0 {
      assert x + w == x;
    } else {
      WordsSeparated(x, w, "");
      assert x + w + "" == x + w;
    }
  }

  // ----- The token pipeline computes Words -----

  /** Only the space character can be whitespace in s. */
  predicate OnlySpaces(s: string) { forall i :: 0 <= i < |s| ==> IsWhitespace(s[i]) ==> s[i] == ' ' }

  lemma {:induction false} CollapseOnlySpaces(s: string)
    ensures OnlySpaces(CollapseWhitespace(s))
    ensures |s| > 0 && IsWhitespace(s[0]) ==> CollapseWhitespace(s)[0] == ' '
    ensures |s| > 0 && !IsWhitespace(s[0]) ==> CollapseWhitespace(s)[0] == s[0]
    ensures |CollapseWhitespace(s)| == 0 <==> |s| == 0
    decreases |s|
  {
    if |s| > 0 {
      if IsWhitespace(s[0]) {
        CollapseOnlySpaces(s[WhitespaceLength(s)..]);
      } else {
        CollapseOnlySpaces(s[WordLength(s)..]);
      }
    }
  }

  /** No two whitespace characters stand side by side in s. */
  predicate SingleSpaced(s: string) { forall i :: 0 <= i < |s| - 1 ==> !(IsWhitespace(s[i]) && IsWhitespace(s[i + 1])) }

  lemma SingleSpacedConcat(h: string, t: string)
    requires SingleSpaced(h) && SingleSpaced(t)
    requires |h| > 0 && |t| > 0 ==> !(IsWhitespace(h[|h| - 1]) && IsWhitespace(t[0]))
    ensures SingleSpaced(h + t)
  {
    var r := h + t;
    forall i | 0 <= i < |r| - 1
      ensures !(IsWhitespace(r[i]) && IsWhitespace(r[i + 1]))
    {
      if i + 1 < |h| {
        assert r[i] == h[i] && r[i + 1] == h[i + 1];
      } else if i + 1 == |h| {
        assert r[i] == h[i] && r[i + 1] == t[0];
      } else {
        assert r[i] == t[i - |h|] && r[i + 1] == t[i + 1 - |h|];
      }
    }
  }

  /** Collapsing leaves no two whitespace characters side by side and never lengthens the text. */
  lemma {:induction false} CollapseSingleSpaced(s: string)
    ensures SingleSpaced(CollapseWhitespace(s))
    ensures |CollapseWhitespace(s)| <= |s|
    decreases |s|
  {
    if |s| > 0 {
      var k := if IsWhitespace(s[0]) then WhitespaceLength(s) else WordLength(s);
      var head := if IsWhitespace(s[0]) then " " else s[..k];
      var rest := CollapseWhitespace(s[k..]);
      assert CollapseWhitespace(s) == head + rest;
      CollapseSingleSpaced(s[k..]);
      CollapseOnlySpaces(s[k..]);
      assert SingleSpaced(head) && 0 < |head| <= k;
      assert |rest| > 0 ==> !(IsWhitespace(head[|head| - 1]) && IsWhitespace(rest[0]));
      SingleSpacedConcat(head, rest);
    }
  }

  /** A word followed by text that is empty or starts with a space keeps that word whole. */
  lemma WordThenSpaced(w: string, rest: string)
    requires IsWord(w)
    requires |rest| > 0 ==> rest[0] == ' '
    ensures Words(w + rest) == [w] + Words(rest)
  {
    var t := w + rest;
    assert t[..|w|] == w;
    WordLengthIs(t, |w|);
    assert t[|w|..] == rest;
  }

  lemma {:induction false} CollapseKeepsWords(s: string)
    ensures Words(CollapseWhitespace(s)) == Words(s)
    decreases |s|
  {
    if |s| == 0 {
    } else if IsWhitespace(s[0]) {
      var k := WhitespaceLength(s);
      CollapseKeepsWords(s[k..]);
      WordsSkipWhitespace(s, k);
    } else {
      var k := WordLength(s);
      CollapseKeepsWords(s[k..]);
      CollapseOnlySpaces(s[k..]);
      assert NoWhitespace(s[..k]) && s[0] == s[..k][0];
      WordThenSpaced(s[..k], CollapseWhitespace(s[k..]));
    }
  }

  lemma {:induction false} TrimEndKeepsWords(s: string)
    ensures Words(TrimEnd(s)) == Words(s)
    ensures exists j :: 0 <= j <= |s| && TrimEnd(s) == s[..j]
    decreases |s|
  {
    if |s| > 0 && IsWhitespace(s[|s| - 1]) {
      var p := s[..|s| - 1];
      TrimEndKeepsWords(p);
      WordsWithTrailingWhitespace(p, [s[|s| - 1]]);
      assert p + [s[|s| - 1]] == s;
      var j :| 0 <= j <= |p| && TrimEnd(p) == p[..j];
      assert TrimEnd(s) == s[..j];
    } else {
      assert TrimEnd(s) == s[..|s|];
    }
  }

  lemma TrimKeepsWords(s: string)
    ensures Words(Trim(s)) == Words(s)
    ensures OnlySpaces(s) ==> OnlySpaces(Trim(s))
  {
    var k := WhitespaceLength(s);
    WordsSkipWhitespace(s, k);
    TrimEndKeepsWords(s[k..]);
  }

  /** On text whose only whitespace is the space, the non-empty pieces of `split(' ')` are its words. */
  lemma {:induction false} SplitOnSpacesGivesWords(s: string)
    requires OnlySpaces(s)
    ensures NonEmpty(Split(s, ' ')) == Words(s)
    decreases |s|
  {
    if ' ' !in s {
      assert NoWhitespace(s);
      if |s| > 0 {
        WordsOfWord(s);
      }
    } else {
      var i := IndexOf(s, ' ');
      var x, y := s[..i], s[i + 1..];
      SpaceSplit(s, i);
      SplitOnSpacesGivesWords(y);
      WordsSeparated(x, " ", y);
      if i > 0 {
        WordsOfWord(x);
      }
      NonEmptyCons(x, Split(y, ' '));
    }
  }

  /** Splitting at the first space: the word before it, then the pieces of the rest. */
  lemma SpaceSplit(s: string, i: nat)
    requires OnlySpaces(s) && ' ' in s && i == IndexOf(s, ' ')
    ensures s == s[..i] + " " + s[i + 1..]
    ensures Split(s, ' ') == [s[..i]] + Split(s[i + 1..], ' ')
    ensures OnlySpaces(s[i + 1..]) && NoWhitespace(s[..i])
  {
    CutAt(s, i);
    var x, y := s[..i], s[i + 1..];
    assert forall j :: 0 <= j < |y| ==> y[j] == s[i + 1 + j];
    assert forall j :: 0 <= j < |x| ==> x[j] == s[j];
  }

  /** A string is the part before position i, the character there, and the part after. */
  lemma CutAt(s: string, i: nat)
    requires i < |s|
    ensures s == s[..i] + [s[i]] + s[i + 1..]
  {
    assert s == s[..i] + s[i..];
    assert s[i..] == [s[i]] + s[i + 1..];
  }

  lemma NonEmptyCons(x: string, parts: seq<string>)
    ensures NonEmpty([x] + parts) == (if |x| > 0 then [x] else []) + NonEmpty(parts)
  {
    assert ([x] + parts)[1..] == parts;
  }

  /** The collapse / trim / split / filter pipeline yields exactly the words of the text. */
  lemma TokensAreWords(s: string)
    ensures Tokens(s) == Words(s)
  {
    CollapseKeepsWords(s);
    CollapseOnlySpaces(s);
    TrimKeepsWords(CollapseWhitespace(s));
    SplitOnSpacesGivesWords(Trim(CollapseWhitespace(s)));
  }
}
