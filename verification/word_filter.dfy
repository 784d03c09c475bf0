/**
 The token validator `clean_word` of markov.py: a token survives only when it is
 non-empty and holds no ASCII punctuation, no soft hyphen and no ASCII digit; a
 surviving token is returned lowercased, a rejected one is dropped whole.
 */
module WordFilter {
  import opened Wrappers
  import opened Text

  /** The soft-hyphen character U+00AD. */
  const SoftHyphen: char := '\U{00AD}'

  /** Python's `string.punctuation`. */
  const Punctuation: string := "!\"#$%&'()*+,-./:;<=>?@[\\]^_`{|}~"

  /** SYMBOLS_TO_RM: the punctuation characters followed by the soft hyphen. */
  const SymbolsToRm: string := Punctuation + [SoftHyphen]

  /** NUMBERS_TO_RM: Python's `string.digits`. */
  const NumbersToRm: string := "0123456789"

  /** The printable ASCII characters that are neither letters, digits nor space. */
  predicate IsAsciiPunctuation(c: char) {
    || '!' <= c <= '/'
    || ':' <= c <= '@'
    || '[' <= c <= '`'
    || '{' <= c <= '~'
  }

  predicate IsAsciiDigit(c: char) {
    '0' <= c <= '9'
  }

  /** A character whose presence makes clean_word reject the whole token. */
  predicate Forbidden(c: char) {
    IsAsciiPunctuation(c) || c == SoftHyphen || IsAsciiDigit(c)
  }

  /** Every printable ASCII punctuation character is in SYMBOLS_TO_RM. */
  lemma PunctuationListed(c: char)
    requires IsAsciiPunctuation(c)
    ensures c in SymbolsToRm
  {
    var n := c as int;
    if '!' <= c <= '/' {
      assert SymbolsToRm[n - 33] == c;
    } else if ':' <= c <= '@' {
      assert SymbolsToRm[n - 58 + 15] == c;
    } else if '[' <= c <= '`' {
      assert SymbolsToRm[n - 91 + 22] == c;
    } else {
      assert SymbolsToRm[n - 123 + 28] == c;
    }
  }

  /** SYMBOLS_TO_RM holds nothing but ASCII punctuation and the soft hyphen. */
  lemma ListedIsPunctuation(c: char)
    requires c in SymbolsToRm
    ensures IsAsciiPunctuation(c) || c == SoftHyphen
  {
    var i :| 0 <= i < |SymbolsToRm| && SymbolsToRm[i] == c;
  }

  /** NUMBERS_TO_RM is exactly the ASCII digits. */
  lemma DigitsListed(c: char)
    ensures c in NumbersToRm <==> IsAsciiDigit(c)
  {
    if IsAsciiDigit(c) {
      assert NumbersToRm[c as int - 48] == c;
    }
    if c in NumbersToRm {
      var i :| 0 <= i < |NumbersToRm| && NumbersToRm[i] == c;
    }
  }

  /** The two removal tables are exactly the ASCII punctuation plus the soft hyphen,
      and the ASCII digits: together they hold exactly the forbidden characters. */
  lemma ForbiddenClasses(c: char)
    ensures c in SymbolsToRm <==> IsAsciiPunctuation(c) || c == SoftHyphen
    ensures c in NumbersToRm <==> IsAsciiDigit(c)
    ensures Forbidden(c) <==> c in SymbolsToRm || c in NumbersToRm
  {
    if IsAsciiPunctuation(c) {
      PunctuationListed(c);
    }
    if c in SymbolsToRm {
      ListedIsPunctuation(c);
    }
    assert SymbolsToRm[|SymbolsToRm| - 1] == SoftHyphen;
    DigitsListed(c);
  }

  /** A token that clean_word returns unchanged: non-empty, nothing forbidden, nothing
      upper-case. */
  predicate IsCleanToken(t: string) {
    |t| >= 1 && forall k :: 0 <= k < |t| ==> !Forbidden(t[k]) && !IsUpper(t[k])
  }

  /** clean_word: a token is rejected (`None`) when it is empty or holds a forbidden
      character, and is otherwise returned lowercased. */
  function CleanWord(word: string): (r: Option<string>)
    ensures r.Some? ==> |r.value| == |word| && IsCleanToken(r.value)
  {
    if |word| >= 1 && forall k :: 0 <= k < |word| ==> !Forbidden(word[k]) then Some(Lower(word))
    else None
  }

  /** Scanning the two tables for a character that occurs in the word finds one exactly
      when the word holds a forbidden character. */
  lemma TablesFindForbidden(word: string)
    ensures (exists j :: 0 <= j < |SymbolsToRm| && SymbolsToRm[j] in word)
         || (exists j :: 0 <= j < |NumbersToRm| && NumbersToRm[j] in word)
        <==> exists k :: 0 <= k < |word| && Forbidden(word[k])
  {
    if exists k :: 0 <= k < |word| && Forbidden(word[k]) {
      var k :| 0 <= k < |word| && Forbidden(word[k]);
      ForbiddenClasses(word[k]);
      if word[k] in SymbolsToRm {
        var j :| 0 <= j < |SymbolsToRm| && SymbolsToRm[j] == word[k];
        assert SymbolsToRm[j] in word;
      } else {
        var j :| 0 <= j < |NumbersToRm| && NumbersToRm[j] == word[k];
        assert NumbersToRm[j] in word;
      }
    }
    if exists j :: 0 <= j < |SymbolsToRm| && SymbolsToRm[j] in word {
      var j :| 0 <= j < |SymbolsToRm| && SymbolsToRm[j] in word;
      var k :| 0 <= k < |word| && word[k] == SymbolsToRm[j];
      ForbiddenClasses(word[k]);
    }
    if exists j :: 0 <= j < |NumbersToRm| && NumbersToRm[j] in word {
      var j :| 0 <= j < |NumbersToRm| && NumbersToRm[j] in word;
      var k :| 0 <= k < |word| && word[k] == NumbersToRm[j];
      ForbiddenClasses(word[k]);
    }
  }

  /** clean_word as written: the two scanning loops with their shared flag and early
      exits, then the length test. */
  method CleanWordScan(word: string) returns (r: Option<string>)
    ensures r == CleanWord(word)
  {
    var ignoreFlag := false;
    for i := 0 to |SymbolsToRm|
      invariant ignoreFlag <==> exists j :: 0 <= j < i && SymbolsToRm[j] in word
    {
      if SymbolsToRm[i] in word {
        ignoreFlag := true;
        break;
      }
    }
    var symbolFlag := ignoreFlag;
    for i := 0 to |NumbersToRm|
      invariant ignoreFlag <==> symbolFlag || exists j :: 0 <= j < i && NumbersToRm[j] in word
    {
      if NumbersToRm[i] in word {
        ignoreFlag := true;
        break;
      }
    }
    TablesFindForbidden(word);
    if !ignoreFlag && |word| >= 1 {
      r := Some(Lower(word));
    } else {
      r := None;
    }
  }

  /** clean_word in the source's own terms: a token is kept exactly when it is non-empty
      and no character of it is in SYMBOLS_TO_RM or NUMBERS_TO_RM, and a kept token is
      returned lowercased. */
  lemma CleanWordTables(word: string)
    ensures CleanWord(word).Some? <==>
      |word| >= 1 && forall k :: 0 <= k < |word| ==> word[k] !in SymbolsToRm && word[k] !in NumbersToRm
    ensures CleanWord(word).Some? ==> CleanWord(word).value == Lower(word)
  {
    forall k | 0 <= k < |word| {
      ForbiddenClasses(word[k]);
    }
  }

  /** A token holding any character of SYMBOLS_TO_RM, that is a punctuation character or
      the soft hyphen, is dropped whole. */
  lemma PunctuationRejected(word: string, k: int)
    requires 0 <= k < |word|
    requires word[k] in SymbolsToRm
    ensures CleanWord(word) == None
  {
    ForbiddenClasses(word[k]);
  }

  /** A token holding any character of NUMBERS_TO_RM, that is a digit, is dropped whole. */
  lemma DigitRejected(word: string, k: int)
    requires 0 <= k < |word|
    requires word[k] in NumbersToRm
    ensures CleanWord(word) == None
  {
    ForbiddenClasses(word[k]);
  }

  /** The clean tokens are exactly the tokens clean_word returns unchanged. */
  lemma CleanWordFixedPoints(word: string)
    ensures CleanWord(word) == Some(word) <==> IsCleanToken(word)
  {
    LowerFixedPoints(word);
  }

  /** clean_word is idempotent: cleaning a cleaned token changes nothing. */
  lemma CleanWordIdempotent(word: string)
    requires CleanWord(word).Some?
    ensures CleanWord(CleanWord(word).value) == CleanWord(word)
  {
    CleanWordFixedPoints(word);
    CleanWordFixedPoints(CleanWord(word).value);
  }

  /** clean_word never introduces a space: a token without one stays without one. */
  lemma CleanWordSpaceFree(word: string)
    requires ' ' !in word
    requires CleanWord(word).Some?
    ensures ' ' !in CleanWord(word).value
  {
    LowerKeepsNonLetter(word, ' ');
  }

  /** The all-or-nothing policy on one token: `ocean!` is dropped, not stripped to
      `ocean`. */
  lemma PunctuatedWordDropped()
    ensures CleanWord("ocean!") == None
  {
    PunctuationRejected("ocean!", 5);
  }

  predicate IsAsciiLetter(c: char) {
    'a' <= c <= 'z' || IsUpper(c)
  }

  /** A non-empty token made only of ASCII letters is always kept, lowercased, and then
      cleaning it again changes nothing. */
  lemma LetterWordKept(word: string)
    requires |word| >= 1
    requires forall k :: 0 <= k < |word| ==> IsAsciiLetter(word[k])
    ensures CleanWord(word) == Some(Lower(word))
    ensures CleanWord(Lower(word)) == Some(Lower(word))
  {
    CleanWordIdempotent(word);
  }
}
