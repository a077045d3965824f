/**
 * Worked cases of `countWords`: what markup, punctuation, numbers and
 * comments do to the count of a few plain words, each derived from the
 * general lemmas of `WordCount`.
 */
module WordCountExamples {
  import opened Api
  import opened JsText
  import opened WordCount
  import Decimal

  /** A run of ASCII letters. */
  predicate IsLetters(w: string)
  {
    |w| > 0 && forall i :: 0 <= i < |w| ==> 'a' <= w[i] <= 'z' || 'A' <= w[i] <= 'Z'
  }

  /** A run of letters counts as one word. */
  lemma LettersCountOne(w: string)
    requires IsLetters(w)
    ensures CountWords(Text(w)) == 1
  {
    assert '<' !in w by {
      forall i | 0 <= i < |w| ensures w[i] != '<' {}
    }
    assert !Decimal.IsDigit(w[0]);
    SingleToken(w);
  }

  /** A run of digits is a number and counts nothing. */
  lemma DigitsCountZero(n: string)
    requires |n| > 0 && Decimal.AllDigits(n)
    ensures CountWords(Text(n)) == 0
  {
    assert '<' !in n by {
      forall i | 0 <= i < |n| ensures n[i] != '<' {
        assert Decimal.IsDigit(n[i]);
      }
    }
    assert forall i :: 0 <= i < |n| ==> Decimal.IsDigit(n[i]);
    SingleToken(n);
  }

  /** A tag between two words separates them: `Hello<br>World` counts 2. */
  lemma TagBetweenWords(x: string, name: string, y: string)
    requires IsLetters(x) && IsLetters(name) && IsLetters(y)
    ensures CountWords(Text(x + "<" + name + ">" + y)) == 2
  {
    assert '<' !in x by { LettersCountOne(x); }
    assert '>' !in name && '<' !in name by { LettersCountOne(name); }
    assert !(|name| >= 3 && name[..3] == "!--") by {
      if |name| >= 3 { assert name[..3][0] == name[0]; }
    }
    TagSeparatesWords(x, name, y);
    LettersCountOne(x);
    LettersCountOne(y);
  }

  /** Markup around a word leaves just the word: `<p>Hello</p>` counts 1. */
  lemma WrappedWord(w: string)
    requires IsLetters(w)
    ensures CountWords(Text("<p>" + w + "</p>")) == 1
  {
    var inner := w + "<" + "/p" + ">" + "";
    var s := "" + "<" + "p" + ">" + inner;
    assert "<p>" + w + "</p>" == s by { WrappedShape(w); }
    assert CountWords(Text(inner)) == 1 by {
      assert '<' !in w by { LettersCountOne(w); }
      TagSeparatesWords(w, "/p", "");
      BlankTextCountsZero("");
      LettersCountOne(w);
    }
    assert CountWords(Text(s)) == CountWords(Text("")) + CountWords(Text(inner)) by {
      TagSeparatesWords("", "p", inner);
    }
    BlankTextCountsZero("");
  }

  /** `<p>w</p>` as an opening tag, then w, then a closing tag. */
  lemma WrappedShape(w: string)
    ensures "<p>" + w + "</p>" == "" + "<" + "p" + ">" + (w + "<" + "/p" + ">" + "")
  {
  }

  /** Punctuation between two words splits them: `a.b` counts 2. */
  lemma PunctuationSplits(x: string, p: char, y: string)
    requires IsLetters(x) && IsLetters(y) && IsPunctuation(p)
    ensures CountWords(Text(x + [p] + y)) == 2
  {
    assert '<' !in x by { LettersCountOne(x); }
    SeparatorSplitsCount(x, [p], y);
    LettersCountOne(x);
    LettersCountOne(y);
  }

  /**
   * Pure numbers are not words, even before punctuation, but a number joined
   * to letters is: `Section 12` counts 1, `12.` counts 0, `12a` counts 1.
   */
  lemma NumbersDropped(w: string, n: string)
    requires IsLetters(w) && |n| > 0 && Decimal.AllDigits(n)
    ensures CountWords(Text(w + " " + n)) == 1
    ensures CountWords(Text(n + ".")) == 0
    ensures CountWords(Text(n + w)) == 1
  {
    assert '<' !in w by { LettersCountOne(w); }
    assert '<' !in n by { DigitsCountZero(n); }
    SeparatorSplitsCount(w, " ", n);
    SeparatorSplitsCount(n, ".", "");
    assert n + "." + "" == n + ".";
    BlankTextCountsZero("");
    LettersCountOne(w);
    DigitsCountZero(n);
    MixedToken(n, w);
  }

  lemma MixedToken(n: string, w: string)
    requires IsLetters(w) && |n| > 0 && Decimal.AllDigits(n)
    ensures CountWords(Text(n + w)) == 1
  {
    var t := n + w;
    forall i | 0 <= i < |t|
      ensures t[i] != '<' && !IsWhitespace(t[i]) && !IsPunctuation(t[i])
    {
      if i < |n| {
        assert t[i] == n[i] && Decimal.IsDigit(n[i]);
      } else {
        assert t[i] == w[i - |n|];
      }
    }
    assert !Decimal.IsDigit(t[|n|]);
    SingleToken(t);
  }

  /** A closed comment vanishes with everything inside it: `Hello<!-- a b -->` counts 1. */
  lemma CommentIgnored(w: string, body: string)
    requires IsLetters(w)
    requires Find(body, "-->", 0).None?
    ensures CountWords(Text(w + "<!--" + body + "-->")) == 1
  {
    assert '<' !in w by { LettersCountOne(w); }
    PlainTextTerminated(w);
    AppendedCommentIgnored(w, body);
    LettersCountOne(w);
  }
}
