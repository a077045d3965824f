/**
 * `useWordCount`: the word counter applied to a title's XML, and the
 * per-agency aggregation that looks the agency up, counts each of its titles
 * and sums the titles that have words.
 */
module WordCount {
  import opened Wrappers
  import opened JsText
  import Decimal
  import opened Api

  // ----- Step 1: `replace(/<!--[\s\S]*?-->/g, '')` -----

  /** a appears in b in order, possibly with other elements in between. */
  predicate IsSubsequence<T(==)>(a: seq<T>, b: seq<T>)
  {
    |a| == 0 || (|b| > 0 && if a[0] == b[0] then IsSubsequence(a[1..], b[1..]) else IsSubsequence(a, b[1..]))
  }

  lemma {:induction false} SubsequenceDropHead<T>(a: seq<T>, b: seq<T>)
    requires |a| > 0 && IsSubsequence(a, b)
    ensures IsSubsequence(a[1..], b)
    decreases |b|
  {
    var rest := a[1..];
    if a[0] != b[0] {
      SubsequenceDropHead(a, b[1..]);
    }
    assert IsSubsequence(rest, b[1..]);
    if |rest| > 0 && rest[0] == b[0] {
      SubsequenceDropHead(rest, b[1..]);
    }
  }

  lemma {:induction false} SubsequenceOfSuffix<T>(a: seq<T>, b: seq<T>, k: nat)
    requires k <= |b| && IsSubsequence(a, b[k..])
    ensures IsSubsequence(a, b)
    decreases k
  {
    if k > 0 && |a| > 0 {
      assert b[k..] == b[1..][k - 1..];
      SubsequenceOfSuffix(a, b[1..], k - 1);
      if a[0] == b[0] {
        SubsequenceDropHead(a, b[1..]);
      }
    }
  }

  /** pat occurs in s at position k. */
  predicate MatchesAt(s: string, pat: string, k: nat)
  {
    k + |pat| <= |s| && s[k..k + |pat|] == pat
  }

  /** Index of the first occurrence of pat in s at or after position from. */
  function Find(s: string, pat: string, from: nat): (r: Option<nat>)
    requires |pat| > 0
    ensures r.Some? ==> from <= r.value && MatchesAt(s, pat, r.value)
    ensures r.Some? ==> forall k: nat :: from <= k < r.value ==> !MatchesAt(s, pat, k)
    ensures r.None? ==> forall k: nat :: from <= k ==> !MatchesAt(s, pat, k)
    decreases |s| - from
  {
    if from + |pat| > |s| then None
    else if s[from..from + |pat|] == pat then Some(from)
    else Find(s, pat, from + 1)
  }

  /** s starts with `<!--`. */
  predicate OpensComment(s: string) { |s| >= 4 && s[0] == '<' && s[1] == '!' && s[2] == '-' && s[3] == '-' }

  /**
   * Deletes every comment. Scanning left to right, a `<!--` followed later by
   * `-->` is dropped up to and including the first such `-->` (the lazy match);
   * scanning resumes after it. A `<!--` with no `-->` after it stays as text.
   */
  function StripComments(s: string): string
    decreases |s|
  {
    if |s| == 0 then ""
    else if OpensComment(s) && Find(s, "-->", 4).Some? then StripComments(s[Find(s, "-->", 4).value + 3..])
    else [s[0]] + StripComments(s[1..])
  }

  /** Comment removal only deletes: what is left is the text's characters, in their order. */
  lemma {:induction false} StripCommentsDeletes(s: string)
    ensures IsSubsequence(StripComments(s), s)
    decreases |s|
  {
    if |s| == 0 {
    } else if OpensComment(s) && Find(s, "-->", 4).Some? {
      var k := Find(s, "-->", 4).value + 3;
      StripCommentsDeletes(s[k..]);
      SubsequenceOfSuffix(StripComments(s[k..]), s, k);
    } else {
      StripCommentsDeletes(s[1..]);
      assert StripComments(s) == [s[0]] + StripComments(s[1..]);
    }
  }

  /** The scan of StripComments meets a `<!--` that no `-->` closes. */
  predicate Unterminated(s: string)
    decreases |s|
  {
    if |s| == 0 then false
    else if OpensComment(s) then
      match Find(s, "-->", 4)
      case None => true
      case Some(k) => Unterminated(s[k + 3..])
    else Unterminated(s[1..])
  }

  // ----- Step 2: `replace(/<[^>]+>/g, ' ')` -----

  /** Index of the `>` closing a tag that starts s: the first `>`, with at least one character before it after the `<`. */
  function TagEnd(s: string): Option<nat>
  {
    if |s| > 0 && s[0] == '<' && '>' in s && IndexOf(s, '>') >= 2 then Some(IndexOf(s, '>')) else None
  }

  /** Replaces every tag `<...>` (one or more characters other than `>` between the brackets) by one space. */
  function ReplaceTags(s: string): string
    decreases |s|
  {
    if |s| == 0 then ""
    else if TagEnd(s).Some? then " " + ReplaceTags(s[TagEnd(s).value + 1..])
    else [s[0]] + ReplaceTags(s[1..])
  }

  // ----- Step 3: `replace(/[.,\/#!$%\^&\*;:{}=\-_`~()]/g, ' ')` -----

  /** The twenty-one characters of the punctuation class. */
  predicate IsPunctuation(c: char)
  {
    c in ".,/#!$%^&*;:{}=-_`~()"
  }

  /** Every punctuation character becomes a space; every other character stays where it is. */
  function ReplacePunctuation(s: string): (r: string)
    ensures |r| == |s|
  {
    seq(|s|, i requires 0 <= i < |s| => if IsPunctuation(s[i]) then ' ' else s[i])
  }

  /** The text handed to the whitespace normalisation. */
  function CleanText(s: string): string
  {
    ReplacePunctuation(ReplaceTags(StripComments(s)))
  }

  // ----- Step 4: dropping pure numbers -----

  /** `/^\d+$/.test(word)`: one or more ASCII digits and nothing else. */
  predicate IsNumber(w: string) { |w| > 0 && Decimal.AllDigits(w) }

  /** The words that are not numbers, in order. */
  function WithoutNumbers(ws: seq<string>): (r: seq<string>)
    ensures |r| <= |ws|
    ensures forall i :: 0 <= i < |r| ==> !IsNumber(r[i])
  {
    if |ws| == 0 then []
    else if IsNumber(ws[0]) then WithoutNumbers(ws[1..])
    else [ws[0]] + WithoutNumbers(ws[1..])
  }

  /** Dropping numbers keeps every other word exactly as often as it occurs. */
  lemma {:induction false} WithoutNumbersMultiplicity(ws: seq<string>, w: string)
    ensures multiset(WithoutNumbers(ws))[w] == if IsNumber(w) then 0 else multiset(ws)[w]
  {
    if |ws| > 0 {
      WithoutNumbersMultiplicity(ws[1..], w);
      assert ws == [ws[0]] + ws[1..];
    }
  }

  /**
   * `countWords(xmlContent)`: the number of tokens left by the pipeline. For a
   * body that is not a string, `replace` throws and the catch returns 0.
   */
  function CountWords(content: Content): (n: nat)
    ensures content.NonText? ==> n == 0
    ensures content.Text? ==> n == |WithoutNumbers(Words(CleanText(content.text)))|
  {
    match content
    case NonText => 0
    case Text(s) =>
      TokensAreWords(CleanText(s));
      |WithoutNumbers(Tokens(CleanText(s)))|
  }

  // ----- Text without `<` passes the first two steps unchanged -----

  lemma {:induction false} StripCommentsPlainPrefix(a: string, b: string)
    requires '<' !in a
    ensures StripComments(a + b) == a + StripComments(b)
    decreases |a|
  {
    if |a| > 0 {
      assert StripComments(a + b) == [a[0]] + StripComments(a[1..] + b) by {
        assert (a + b)[0] == a[0];
        assert !OpensComment(a + b);
        assert (a + b)[1..] == a[1..] + b;
      }
      assert StripComments(a[1..] + b) == a[1..] + StripComments(b) by {
        StripCommentsPlainPrefix(a[1..], b);
      }
      assert [a[0]] + (a[1..] + StripComments(b)) == a + StripComments(b) by {
        assert a == [a[0]] + a[1..];
      }
    } else {
      assert a + b == b;
    }
  }

  lemma {:induction false} ReplaceTagsPlainPrefix(a: string, b: string)
    requires '<' !in a
    ensures ReplaceTags(a + b) == a + ReplaceTags(b)
    decreases |a|
  {
    if |a| > 0 {
      assert (a + b)[0] == a[0];
      assert (a + b)[1..] == a[1..] + b;
      ReplaceTagsPlainPrefix(a[1..], b);
    } else {
      assert a + b == b;
    }
  }

  lemma ReplacePunctuationConcat(a: string, b: string)
    ensures ReplacePunctuation(a + b) == ReplacePunctuation(a) + ReplacePunctuation(b)
  {}

  lemma CleanPlainPrefix(a: string, b: string)
    requires '<' !in a
    ensures CleanText(a + b) == ReplacePunctuation(a) + CleanText(b)
  {
    StripCommentsPlainPrefix(a, b);
    ReplaceTagsPlainPrefix(a, StripComments(b));
    ReplacePunctuationConcat(a, ReplaceTags(StripComments(b)));
  }

  lemma {:induction false} WithoutNumbersConcat(a: seq<string>, b: seq<string>)
    ensures WithoutNumbers(a + b) == WithoutNumbers(a) + WithoutNumbers(b)
    decreases |a|
  {
    if |a| > 0 {
      assert (a + b)[1..] == a[1..] + b;
      WithoutNumbersConcat(a[1..], b);
    } else {
      assert a + b == b;
    }
  }

  // ----- Properties of countWords -----

  /** Text made only of whitespace and punctuation (in particular the empty text) counts 0. */
  lemma BlankTextCountsZero(s: string)
    requires forall i :: 0 <= i < |s| ==> IsWhitespace(s[i]) || IsPunctuation(s[i])
    ensures CountWords(Text(s)) == 0
  {
    assert forall i :: 0 <= i < |s| ==> s[i] != '<';
    CleanPlainPrefix(s, "");
    assert s + "" == s;
    WordsOfWhitespace(CleanText(s));
  }

  /**
   * A non-empty run of whitespace and punctuation separates words: the count of
   * a + sep + b is the count of a plus the count of b, whatever the run's
   * length. a must hold no `<`, which could open a tag or comment across sep.
   */
  lemma SeparatorSplitsCount(a: string, sep: string, b: string)
    requires '<' !in a
    requires |sep| > 0 && forall i :: 0 <= i < |sep| ==> IsWhitespace(sep[i]) || IsPunctuation(sep[i])
    ensures CountWords(Text(a + sep + b)) == CountWords(Text(a)) + CountWords(Text(b))
  {
    assert forall i :: 0 <= i < |sep| ==> sep[i] != '<';
    var ps := ReplacePunctuation(sep);
    assert AllWhitespace(ps);
    assert CleanText(a + sep + b) == ReplacePunctuation(a) + ps + CleanText(b) by {
      CleanPlainPrefix(a + sep, b);
      ReplacePunctuationConcat(a, sep);
    }
    assert CleanText(a) == ReplacePunctuation(a) by {
      CleanPlainPrefix(a, "");
      assert a + "" == a;
    }
    SeparatedCount(ReplacePunctuation(a), ps, CleanText(b));
  }

  lemma SeparatedCount(x: string, w: string, y: string)
    requires |w| > 0 && AllWhitespace(w)
    ensures |WithoutNumbers(Words(x + w + y))| == |WithoutNumbers(Words(x))| + |WithoutNumbers(Words(y))|
  {
    WordsSeparated(x, w, y);
    WithoutNumbersConcat(Words(x), Words(y));
  }

  /** A tag becomes a single space and never eats the text around it. */
  lemma TagBecomesSpace(a: string, t: string, b: string)
    requires '<' !in a
    requires |t| > 0 && '>' !in t
    ensures ReplaceTags(a + "<" + t + ">" + b) == a + " " + ReplaceTags(b)
  {
    var tag := "<" + t + ">" + b;
    assert ReplaceTags(a + "<" + t + ">" + b) == a + ReplaceTags(tag) by {
      assert a + "<" + t + ">" + b == a + tag;
      ReplaceTagsPlainPrefix(a, tag);
    }
    assert ReplaceTags(tag) == " " + ReplaceTags(b) by {
      TagAtStart(t, b);
    }
  }

  lemma TagAtStart(t: string, b: string)
    requires |t| > 0 && '>' !in t
    ensures ReplaceTags("<" + t + ">" + b) == " " + ReplaceTags(b)
  {
    var tag := "<" + t + ">" + b;
    assert tag[|t| + 1] == '>';
    assert '>' !in tag[..|t| + 1];
    assert IndexOf(tag, '>') == |t| + 1;
    assert tag[|t| + 2..] == b;
  }

  /**
   * A tag between two texts separates them: `a<t>b` counts as many words as a
   * and b together. The tag is neither a comment opener nor holds a `<`.
   */
  lemma TagSeparatesWords(a: string, t: string, b: string)
    requires '<' !in a
    requires |t| > 0 && '>' !in t && '<' !in t
    requires !(|t| >= 3 && t[..3] == "!--")
    ensures CountWords(Text(a + "<" + t + ">" + b)) == CountWords(Text(a)) + CountWords(Text(b))
  {
    var pa := ReplacePunctuation(a);
    assert CleanText(a + "<" + t + ">" + b) == pa + " " + CleanText(b) by {
      TagSurvivesComments(a, t, b);
      TagBecomesSpace(a, t, StripComments(b));
      ReplacePunctuationConcat(a + " ", ReplaceTags(StripComments(b)));
      ReplacePunctuationConcat(a, " ");
      assert ReplacePunctuation(" ") == " ";
    }
    assert CleanText(a) == pa by {
      CleanPlainPrefix(a, "");
      assert a + "" == a;
    }
    SeparatedCount(pa, " ", CleanText(b));
  }

  /** Comment removal leaves a tag that is not a comment opener, and the text before it, untouched. */
  lemma {:induction false} TagSurvivesComments(a: string, t: string, b: string)
    requires '<' !in a
    requires |t| > 0 && '>' !in t && '<' !in t
    requires !(|t| >= 3 && t[..3] == "!--")
    ensures StripComments(a + "<" + t + ">" + b) == a + "<" + t + ">" + StripComments(b)
  {
    var tag := "<" + t + ">";
    calc {
      StripComments(a + "<" + t + ">" + b);
      { assert a + "<" + t + ">" + b == a + (tag + b); }
      StripComments(a + (tag + b));
      { StripCommentsPlainPrefix(a, tag + b); }
      a + StripComments(tag + b);
      { TagKeptByStripComments(t, b); }
      a + (tag + StripComments(b));
      a + "<" + t + ">" + StripComments(b);
    }
  }

  lemma {:induction false} TagKeptByStripComments(t: string, b: string)
    requires |t| > 0 && '>' !in t && '<' !in t
    requires !(|t| >= 3 && t[..3] == "!--")
    ensures StripComments(("<" + t + ">") + b) == ("<" + t + ">") + StripComments(b)
  {
    var s := "<" + t + ">" + b;
    TagOpensNoComment(t, b);
    KeepsHead(s);
    TagPieces(t, b, StripComments(b));
    assert '<' !in t + ">";
    StripCommentsPlainPrefix(t + ">", b);
  }

  /** How `<t>` followed by b splits into its first character and the rest. */
  lemma TagPieces(t: string, b: string, u: string)
    ensures ("<" + t + ">" + b)[0] == '<'
    ensures ("<" + t + ">" + b)[1..] == (t + ">") + b
    ensures "<" + ((t + ">") + u) == ("<" + t + ">") + u
  {
  }

  /** A tag whose body is not `!--` does not open a comment. */
  lemma TagOpensNoComment(t: string, b: string)
    requires |t| > 0 && '>' !in t
    requires !(|t| >= 3 && t[..3] == "!--")
    ensures !OpensComment("<" + t + ">" + b)
  {
    var s := "<" + t + ">" + b;
    if |t| >= 3 {
      assert s[1..4] == t[..3];
    } else {
      assert s[|t| + 1] == '>';
    }
  }

  /** Text that does not open a comment keeps its first character. */
  lemma KeepsHead(s: string)
    requires |s| > 0 && !OpensComment(s)
    ensures StripComments(s) == [s[0]] + StripComments(s[1..])
  {
  }

  /** A single token counts 1 unless it is made only of digits. */
  lemma SingleToken(w: string)
    requires |w| > 0 && '<' !in w
    requires forall i :: 0 <= i < |w| ==> !IsWhitespace(w[i]) && !IsPunctuation(w[i])
    ensures CountWords(Text(w)) == if IsNumber(w) then 0 else 1
  {
    CleanPlainPrefix(w, "");
    assert w + "" == w;
    assert ReplacePunctuation(w) == w;
    WordsOfWord(w);
  }

  // ----- Comments are removed before anything else -----

  lemma {:induction false} FindExtends(x: string, y: string, pat: string, from: nat)
    requires |pat| > 0
    requires Find(x, pat, from).Some?
    ensures Find(x + y, pat, from) == Find(x, pat, from)
    decreases |x| - from
  {
    assert (x + y)[from..from + |pat|] == x[from..from + |pat|];
    if x[from..from + |pat|] != pat {
      FindExtends(x, y, pat, from + 1);
    }
  }

  /** StripComments works piecewise when the first piece leaves no comment open and the second starts with `<`. */
  lemma {:induction false} StripCommentsAppend(x: string, y: string)
    requires !Unterminated(x)
    requires |y| > 0 && y[0] == '<'
    ensures StripComments(x + y) == StripComments(x) + StripComments(y)
    decreases |x|
  {
    if |x| == 0 {
      assert x + y == y;
    } else if OpensComment(x) {
      var k := Find(x, "-->", 4).value;
      StripCommentsAppend(x[k + 3..], y);
      AppendAfterComment(x, y, k);
    } else {
      StripCommentsAppend(x[1..], y);
      AppendAfterText(x, y);
    }
  }

  lemma AppendAfterComment(x: string, y: string, k: nat)
    requires OpensComment(x) && Find(x, "-->", 4) == Some(k)
    ensures StripComments(x) == StripComments(x[k + 3..])
    ensures StripComments(x + y) == StripComments(x[k + 3..] + y)
  {
    assert StripComments(x) == StripComments(x[k + 3..]) by {
      CommentAtStart(x, k);
    }
    assert StripComments(x + y) == StripComments((x + y)[k + 3..]) by {
      CommentOpensAcross(x, y, k);
      CommentAtStart(x + y, k);
    }
    assert (x + y)[k + 3..] == x[k + 3..] + y;
  }

  /** A comment closed within x is closed at the same place in x + y. */
  lemma CommentOpensAcross(x: string, y: string, k: nat)
    requires OpensComment(x) && Find(x, "-->", 4) == Some(k)
    ensures OpensComment(x + y) && Find(x + y, "-->", 4) == Some(k)
  {
    assert (x + y)[0] == x[0] && (x + y)[1] == x[1] && (x + y)[2] == x[2] && (x + y)[3] == x[3];
    FindExtends(x, y, "-->", 4);
  }

  lemma CommentAtStart(s: string, k: nat)
    requires OpensComment(s) && Find(s, "-->", 4) == Some(k)
    ensures StripComments(s) == StripComments(s[k + 3..])
  {
  }

  lemma AppendAfterText(x: string, y: string)
    requires |x| > 0 && !OpensComment(x)
    requires |y| > 0 && y[0] == '<'
    ensures StripComments(x) == [x[0]] + StripComments(x[1..])
    ensures StripComments(x + y) == [x[0]] + StripComments(x[1..] + y)
  {
    NoOpenerAcross(x, y);
    assert (x + y)[0] == x[0];
    assert (x + y)[1..] == x[1..] + y;
  }

  /** A text that does not open a comment still does not when followed by `<...`. */
  lemma NoOpenerAcross(x: string, y: string)
    requires |x| > 0 && !OpensComment(x)
    requires |y| > 0 && y[0] == '<'
    ensures !OpensComment(x + y)
  {
    if |x| >= 4 {
      assert (x + y)[..4] == x[..4];
    } else {
      assert (x + y)[|x|] == '<';
    }
  }

  /** Text without `<` leaves no comment open. */
  lemma {:induction false} PlainTextTerminated(s: string)
    requires '<' !in s
    ensures !Unterminated(s)
    decreases |s|
  {
    if |s| > 0 {
      assert s[0] != '<' && !OpensComment(s);
      assert forall i :: 1 <= i < |s| ==> s[1..][i - 1] == s[i];
      PlainTextTerminated(s[1..]);
    }
  }

  /** A complete comment block is removed entirely. */
  lemma {:induction false} CommentVanishes(body: string)
    requires Find(body, "-->", 0).None?
    ensures StripComments("<!--" + body + "-->") == ""
  {
    var c := "<!--" + body + "-->";
    assert OpensComment(c) by {
      assert c[..4] == "<!--";
    }
    ClosingFound(body);
    assert c[|body| + 7..] == "";
  }

  /** The `-->` that ends a comment block is the first one after the opener. */
  lemma {:induction false} ClosingFound(body: string)
    requires Find(body, "-->", 0).None?
    ensures Find("<!--" + body + "-->", "-->", 4) == Some(4 + |body|)
  {
    var c := "<!--" + body + "-->";
    var n := |body|;
    assert MatchesAt(c, "-->", 4 + n) by {
      assert c[4 + n..4 + n + 3] == "-->";
    }
    forall k: nat | 4 <= k < 4 + n
      ensures !MatchesAt(c, "-->", k)
    {
      NoClosingInside(body, k);
    }
    FindFirst(c, "-->", 4, 4 + n);
  }

  lemma {:induction false} NoClosingInside(body: string, k: nat)
    requires Find(body, "-->", 0).None?
    requires 4 <= k < 4 + |body|
    ensures !MatchesAt("<!--" + body + "-->", "-->", k)
  {
    var c := "<!--" + body + "-->";
    var n := |body|;
    if k + 3 <= 4 + n {
      assert c[k..k + 3] == body[k - 4..k - 1];
      assert !MatchesAt(body, "-->", k - 4);
    } else {
      assert c[4 + n] == '-' && c[4 + n + 1] == '-';
      assert c[k..k + 3][2] == c[k + 2];
    }
  }

  /** Find returns the first match: a match at m with none in [from, m) is the answer. */
  lemma {:induction false} FindFirst(s: string, pat: string, from: nat, m: nat)
    requires |pat| > 0 && from <= m && MatchesAt(s, pat, m)
    requires forall k: nat :: from <= k < m ==> !MatchesAt(s, pat, k)
    ensures Find(s, pat, from) == Some(m)
    decreases m - from
  {
    if from < m {
      assert !MatchesAt(s, pat, from);
      FindFirst(s, pat, from + 1, m);
    }
  }

  /**
   * Appending a complete `<!-- ... -->` block (one whose body holds no `-->`)
   * to text that leaves no comment open does not change the count.
   */
  lemma AppendedCommentIgnored(x: string, body: string)
    requires !Unterminated(x)
    requires Find(body, "-->", 0).None?
    ensures CountWords(Text(x + "<!--" + body + "-->")) == CountWords(Text(x))
  {
    var c := "<!--" + body + "-->";
    assert x + "<!--" + body + "-->" == x + c;
    StripCommentsAppend(x, c);
    CommentVanishes(body);
    assert StripComments(x) + "" == StripComments(x);
  }

  // ----- fetchWordCounts: from an agency id to the dashboard's word counts -----

  /** One entry of the title breakdown. */
  datatype TitleCount = TitleCount(titleId: string, wordCount: nat)

  /** What the hook publishes as `wordCountData`. */
  datatype WordCountData = WordCountData(totalWords: nat, titleBreakdown: seq<TitleCount>)

  /** The hook's published state: the last data set and the current error, each possibly absent. */
  datatype WordCountState = WordCountState(data: Option<WordCountData>, error: Option<string>)

  /** `agencies.find(a => a.id === agencyId)`: the first agency with that id. */
  function FindAgency(agencies: seq<Agency>, id: string): (r: Option<Agency>)
    ensures r.None? <==> forall i :: 0 <= i < |agencies| ==> agencies[i].id != id
    ensures r.Some? ==> exists i :: 0 <= i < |agencies| && agencies[i] == r.value && r.value.id == id
                          && forall j :: 0 <= j < i ==> agencies[j].id != id
  {
    if |agencies| == 0 then None
    else if agencies[0].id == id then Some(agencies[0])
    else
      var r := FindAgency(agencies[1..], id);
      assert forall i :: 1 <= i < |agencies| ==> agencies[i] == agencies[1..][i - 1];
      r
  }

  /**
   * The word count of one title: `getTitleContent(titleId)` with its default
   * date `'latest'`, counted; any error thrown by the request counts 0.
   */
  function TitleWordCount(server: (string, string) -> Reply, titleId: string): (n: nat)
    ensures server(titleId, "latest").Body? ==> n == CountWords(server(titleId, "latest").content)
    ensures !server(titleId, "latest").Body? ==> n == 0
  {
    var f := GetTitleContent(server, titleId, "latest", 0);
    match f.reply
    case Body(content) => CountWords(content)
    case _ => 0
  }

  /** One entry per title, in title order, each with the count that count gives it. */
  function Tabulate(count: string -> nat, titles: seq<string>): (counts: seq<TitleCount>)
    ensures |counts| == |titles|
    ensures forall i :: 0 <= i < |titles| ==> counts[i] == TitleCount(titles[i], count(titles[i]))
  {
    if |titles| == 0 then []
    else [TitleCount(titles[0], count(titles[0]))] + Tabulate(count, titles[1..])
  }

  /** The `Promise.all` over the agency's titles: one entry per title, in title order. */
  function CountTitles(server: (string, string) -> Reply, titles: seq<string>): (counts: seq<TitleCount>)
    ensures |counts| == |titles|
    ensures forall i :: 0 <= i < |titles| ==>
              counts[i] == TitleCount(titles[i], TitleWordCount(server, titles[i]))
  {
    Tabulate(t => TitleWordCount(server, t), titles)
  }

  /** The sum of the word counts of a breakdown. */
  function Total(counts: seq<TitleCount>): nat
  {
    if |counts| == 0 then 0 else counts[0].wordCount + Total(counts[1..])
  }

  /** `reduce((sum, title) => sum + title.wordCount, acc)`: the running sum, left to right. */
  function RunningSum(acc: nat, counts: seq<TitleCount>): (sum: nat)
    ensures sum >= acc
    ensures sum == acc <==> forall i :: 0 <= i < |counts| ==> counts[i].wordCount == 0
    decreases |counts|
  {
    if |counts| == 0 then acc else RunningSum(acc + counts[0].wordCount, counts[1..])
  }

  /** The entries with a positive count, in order, each as often as it occurs. */
  function WithWords(counts: seq<TitleCount>): (r: seq<TitleCount>)
    ensures forall i :: 0 <= i < |r| ==> r[i].wordCount > 0
    ensures IsSubsequence(r, counts)
    ensures forall c :: multiset(r)[c] == if c.wordCount > 0 then multiset(counts)[c] else 0
  {
    if |counts| == 0 then []
    else
      var rest := WithWords(counts[1..]);
      MultisetOfHead(counts);
      if counts[0].wordCount > 0 then [counts[0]] + rest else rest
  }

  lemma MultisetOfHead<T>(s: seq<T>)
    requires |s| > 0
    ensures multiset(s) == multiset{s[0]} + multiset(s[1..])
  {
    assert s == [s[0]] + s[1..];
  }

  /** The summary built from all the title counts: the titles with words, and their total. */
  function Summarize(counts: seq<TitleCount>): (d: WordCountData)
    ensures forall i :: 0 <= i < |d.titleBreakdown| ==> d.titleBreakdown[i].wordCount > 0
    ensures IsSubsequence(d.titleBreakdown, counts)
    ensures forall c :: multiset(d.titleBreakdown)[c] == if c.wordCount > 0 then multiset(counts)[c] else 0
    ensures d.totalWords == Total(counts)
    ensures d.totalWords == 0 <==> |d.titleBreakdown| == 0
  {
    var valid := WithWords(counts);
    RunningSumIsTotal(0, valid);
    WithWordsKeepsTotal(counts);
    WithWordsEmpty(valid);
    WordCountData(RunningSum(0, valid), valid)
  }

  /**
   * `fetchWordCounts` run for agencyId, given the outcome of `getAgencies`
   * (the raw records, or what the request threw) and the versioner's answers.
   * With no agency id nothing is published. Every other run first clears the
   * error, then either publishes new data or sets the error; a failed run
   * leaves the data of an earlier run in place.
   */
  function FetchWordCounts(prev: WordCountState, agencyId: Option<string>,
                           directory: Result<seq<ApiAgency>, Thrown>,
                           server: (string, string) -> Reply): (s: WordCountState)
    ensures agencyId.None? || agencyId.value == "" ==> s == prev
    ensures s.error.Some? ==> s.data == prev.data
    ensures agencyId.Some? && agencyId.value != "" && directory.Err? ==>
              s.error == Some(if directory.error.ErrorObject? then directory.error.message else "Failed to fetch word counts")
    ensures agencyId.Some? && agencyId.value != "" && directory.Ok? ==>
              (s.error.Some? <==> forall i :: 0 <= i < |directory.value| ==> AgencyId(directory.value[i]) != agencyId.value)
    ensures agencyId.Some? && agencyId.value != "" && directory.Ok? && s.error.Some? ==>
              s.error == Some("Agency with ID " + agencyId.value + " not found")
    ensures agencyId.Some? && agencyId.value != "" && directory.Ok? && s.error.None? ==>
              var i := FirstWithId(directory.value, agencyId.value);
              i < |directory.value| &&
              s.data == Some(Summarize(CountTitles(server, TitleStrings(directory.value[i].cfrReferences))))
  {
    match agencyId
    case None => prev
    case Some(id) =>
      if id == "" then prev
      else match directory
        case Err(thrown) =>
          WordCountState(prev.data, Some(if thrown.ErrorObject? then thrown.message else "Failed to fetch word counts"))
        case Ok(raws) =>
          var agencies := NormalizeAgencies(raws);
          FindNormalized(raws, id);
          match FindAgency(agencies, id)
          case None => WordCountState(prev.data, Some("Agency with ID " + id + " not found"))
          case Some(agency) => WordCountState(Some(Summarize(CountTitles(server, agency.titles))), None)
  }

  /** The position of the first raw record whose id (short name or slug) is id; |raws| when there is none. */
  function FirstWithId(raws: seq<ApiAgency>, id: string): (i: nat)
    ensures i <= |raws|
    ensures forall j :: 0 <= j < i ==> AgencyId(raws[j]) != id
    ensures i < |raws| ==> AgencyId(raws[i]) == id
  {
    if |raws| == 0 then 0
    else if AgencyId(raws[0]) == id then 0
    else
      var k := FirstWithId(raws[1..], id);
      assert forall j :: 1 <= j < 1 + k ==> raws[j] == raws[1..][j - 1];
      1 + k
  }

  /** Looking an id up among the normalised agencies finds the normalisation of the first raw record with that id. */
  lemma {:induction false} FindNormalized(raws: seq<ApiAgency>, id: string)
    ensures FindAgency(NormalizeAgencies(raws), id)
         == if FirstWithId(raws, id) < |raws| then Some(NormalizeAgency(raws[FirstWithId(raws, id)])) else None
  {
    if |raws| > 0 && AgencyId(raws[0]) != id {
      FindNormalized(raws[1..], id);
      assert NormalizeAgencies(raws)[1..] == NormalizeAgencies(raws[1..]);
    }
  }

  /** The left-to-right running sum from acc is acc plus the total. */
  lemma {:induction false} RunningSumIsTotal(acc: nat, counts: seq<TitleCount>)
    ensures RunningSum(acc, counts) == acc + Total(counts)
    decreases |counts|
  {
    if |counts| > 0 {
      RunningSumIsTotal(acc + counts[0].wordCount, counts[1..]);
    }
  }

  /** Dropping the titles without words does not change the total. */
  lemma {:induction false} WithWordsKeepsTotal(counts: seq<TitleCount>)
    ensures Total(WithWords(counts)) == Total(counts)
  {
    if |counts| > 0 {
      WithWordsKeepsTotal(counts[1..]);
    }
  }

  /** A breakdown of titles with words totals 0 only when it is empty. */
  lemma {:induction false} WithWordsEmpty(counts: seq<TitleCount>)
    requires forall i :: 0 <= i < |counts| ==> counts[i].wordCount > 0
    ensures Total(counts) == 0 <==> |counts| == 0
  {
    if |counts| > 0 {
      WithWordsEmpty(counts[1..]);
    }
  }

  /**
   * The breakdown for an agency lists exactly its titles that have words,
   * each with that title's own count.
   */
  lemma BreakdownOfTitles(server: (string, string) -> Reply, titles: seq<string>)
    ensures forall e :: e in Summarize(CountTitles(server, titles)).titleBreakdown ==>
              e.titleId in titles && e.wordCount == TitleWordCount(server, e.titleId) > 0
    ensures forall t :: t in titles && TitleWordCount(server, t) > 0 ==>
              TitleCount(t, TitleWordCount(server, t)) in Summarize(CountTitles(server, titles)).titleBreakdown
  {
    TabulateBreakdown(t => TitleWordCount(server, t), titles);
  }

  lemma TabulateBreakdown(count: string -> nat, titles: seq<string>)
    ensures forall e :: e in Summarize(Tabulate(count, titles)).titleBreakdown ==>
              e.titleId in titles && e.wordCount == count(e.titleId) > 0
    ensures forall t :: t in titles && count(t) > 0 ==>
              TitleCount(t, count(t)) in Summarize(Tabulate(count, titles)).titleBreakdown
  {
    var counts := Tabulate(count, titles);
    var breakdown := Summarize(counts).titleBreakdown;
    forall e | e in breakdown
      ensures e.titleId in titles && e.wordCount == count(e.titleId) > 0
    {
      assert multiset(breakdown)[e] > 0;
      assert e in counts;
    }
    forall t | t in titles && count(t) > 0
      ensures TitleCount(t, count(t)) in breakdown
    {
      var i :| 0 <= i < |titles| && titles[i] == t;
      assert counts[i] == TitleCount(t, count(t));
      assert multiset(counts)[counts[i]] > 0;
    }
  }

  lemma TotalsAdd(server: (string, string) -> Reply, x: seq<string>, y: seq<string>)
    ensures Summarize(CountTitles(server, x + y)).totalWords
         == Summarize(CountTitles(server, x)).totalWords + Summarize(CountTitles(server, y)).totalWords
  {
    CountTitlesAppend(server, x, y);
    TotalAppend(CountTitles(server, x), CountTitles(server, y));
  }

  /** Counting the titles of two lists one after the other counts each list in turn. */
  lemma CountTitlesAppend(server: (string, string) -> Reply, x: seq<string>, y: seq<string>)
    ensures CountTitles(server, x + y) == CountTitles(server, x) + CountTitles(server, y)
  {
    TabulateAppend(t => TitleWordCount(server, t), x, y);
  }

  lemma TabulateAppend(count: string -> nat, x: seq<string>, y: seq<string>)
    ensures Tabulate(count, x + y) == Tabulate(count, x) + Tabulate(count, y)
  {
    var cx, cy, cxy := Tabulate(count, x), Tabulate(count, y), Tabulate(count, x + y);
    forall i | 0 <= i < |cxy|
      ensures cxy[i] == (cx + cy)[i]
    {
      if i < |x| {
        assert (x + y)[i] == x[i];
      } else {
        assert (x + y)[i] == y[i - |x|];
      }
    }
  }

  lemma {:induction false} TotalAppend(a: seq<TitleCount>, b: seq<TitleCount>)
    ensures Total(a + b) == Total(a) + Total(b)
  {
    if |a| > 0 {
      TotalAppend(a[1..], b);
      assert (a + b)[1..] == a[1..] + b;
    } else {
      assert a + b == b;
    }
  }
}
