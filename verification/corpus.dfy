/**
 The corpus builder of markov.py: `clean_set`, which turns raw message texts into
 cleaned sentences, and the pure part of `gen_user_corpus`, which picks one sender's
 texts and appends the distinct words of the cleaned sentences to them.
 */
module CorpusBuilder {
  import opened Wrappers
  import opened Text
  import opened WordFilter

  /** One record of a message export: the sender's name and the text, when there is one. */
  datatype Message = Message(senderName: string, content: Option<string>)

  predicate NoDuplicates(s: seq<string>) {
    forall i, j :: 0 <= i < j < |s| ==> s[i] != s[j]
  }

  /** The texts gen_user_corpus collects: the content of every record sent by `sender`
      that has content, in input order. */
  function SenderTexts(sender: string, messages: seq<Message>): (texts: seq<string>)
    ensures |texts| <= |messages|
    decreases |messages|
  {
    if |messages| == 0 then []
    else
      var m := messages[|messages| - 1];
      var earlier := messages[..|messages| - 1];
      SenderTexts(sender, earlier) + (if m.senderName == sender && m.content.Some? then [m.content.value] else [])
  }

  /** A text is collected exactly when some record from `sender` carries it. */
  lemma {:induction false} SenderTextsMembers(sender: string, messages: seq<Message>, t: string)
    ensures t in SenderTexts(sender, messages) <==>
      exists i :: 0 <= i < |messages| && messages[i].senderName == sender && messages[i].content == Some(t)
    decreases |messages|
  {
    if |messages| > 0 {
      var earlier := messages[..|messages| - 1];
      SenderTextsMembers(sender, earlier, t);
      assert forall i :: 0 <= i < |earlier| ==> earlier[i] == messages[i];
    }
  }

  /** The words clean_word accepts, cleaned, in their original order. */
  function KeptWords(words: seq<string>): (kept: seq<string>)
    ensures |kept| <= |words|
    ensures forall k :: 0 <= k < |kept| ==> IsCleanToken(kept[k])
    decreases |words|
  {
    if |words| == 0 then []
    else
      var last := words[|words| - 1];
      var earlier := words[..|words| - 1];
      KeptWords(earlier) + (match CleanWord(last) case Some(c) => [c] case None => [])
  }

  /** A word is kept exactly when clean_word turns some input word into it. */
  lemma {:induction false} KeptWordsMembers(words: seq<string>, w: string)
    ensures w in KeptWords(words) <==> exists i :: 0 <= i < |words| && CleanWord(words[i]) == Some(w)
    decreases |words|
  {
    if |words| > 0 {
      var earlier := words[..|words| - 1];
      KeptWordsMembers(earlier, w);
      assert forall i :: 0 <= i < |earlier| ==> earlier[i] == words[i];
    }
  }

  /** The words of one line that make it into its cleaned sentence: the line is split on
      ' ', the last segment is discarded, and the rest go through clean_word. */
  function LineWords(line: string): (words: seq<string>)
    ensures |words| <= Occurrences(line, ' ')
  {
    var segments := Split(line, ' ');
    KeptWords(segments[..|segments| - 1])
  }

  /** The cleaned sentence of one line: its kept words joined with ' '. It is empty when
      no word was kept, and otherwise holds one space fewer than there are kept words. */
  function CleanSentence(line: string): (sentence: string)
    ensures LineWords(line) == [] ==> sentence == ""
    ensures LineWords(line) != [] ==> Occurrences(sentence, ' ') == |LineWords(line)| - 1
  {
    LineWordsSpaceFree(line);
    Join(LineWords(line), ' ')
  }

  /** The cleaned sentence of every line, one per line, empty ones included. */
  function Sentences(rawSet: seq<string>): (sentences: seq<string>)
    ensures |sentences| == |rawSet|
    decreases |rawSet|
  {
    if |rawSet| == 0 then []
    else Sentences(rawSet[..|rawSet| - 1]) + [CleanSentence(rawSet[|rawSet| - 1])]
  }

  /** The i-th sentence is the cleaning of the i-th line. */
  lemma {:induction false} SentencesAt(rawSet: seq<string>, i: int)
    requires 0 <= i < |rawSet|
    ensures Sentences(rawSet)[i] == CleanSentence(rawSet[i])
    decreases |rawSet|
  {
    var earlier := rawSet[..|rawSet| - 1];
    if i < |earlier| {
      SentencesAt(earlier, i);
    }
  }

  /** The non-empty entries, in order. */
  function NonEmpty(sentences: seq<string>): (kept: seq<string>)
    ensures |kept| <= |sentences|
    ensures forall k :: 0 <= k < |kept| ==> kept[k] != ""
    decreases |sentences|
  {
    if |sentences| == 0 then []
    else
      var last := sentences[|sentences| - 1];
      NonEmpty(sentences[..|sentences| - 1]) + (if last != "" then [last] else [])
  }

  /** An entry survives exactly when it is non-empty. */
  lemma {:induction false} NonEmptyMembers(sentences: seq<string>, s: string)
    ensures s in NonEmpty(sentences) <==> s != "" && s in sentences
    decreases |sentences|
  {
    if |sentences| > 0 {
      var earlier := sentences[..|sentences| - 1];
      NonEmptyMembers(earlier, s);
      assert sentences == earlier + [sentences[|sentences| - 1]];
    }
  }

  /** clean_set: the non-empty cleaned sentences of the lines, in line order. */
  function CleanSet(rawSet: seq<string>): (cleaned: seq<string>)
    ensures |cleaned| <= |rawSet|
    ensures forall k :: 0 <= k < |cleaned| ==> cleaned[k] != ""
  {
    NonEmpty(Sentences(rawSet))
  }

  /** A sentence is in the output exactly when it is non-empty and some line cleans to it. */
  lemma CleanSetMembers(rawSet: seq<string>, s: string)
    ensures s in CleanSet(rawSet) <==>
      s != "" && exists i :: 0 <= i < |rawSet| && CleanSentence(rawSet[i]) == s
  {
    var sentences := Sentences(rawSet);
    NonEmptyMembers(sentences, s);
    if s in sentences {
      var i :| 0 <= i < |sentences| && sentences[i] == s;
      SentencesAt(rawSet, i);
    }
    if exists i :: 0 <= i < |rawSet| && CleanSentence(rawSet[i]) == s {
      var i :| 0 <= i < |rawSet| && CleanSentence(rawSet[i]) == s;
      SentencesAt(rawSet, i);
    }
  }

  /** The body of clean_set's loop for one line, with its `by_letters` switch: the words
      before the last segment one by one, either branch keeping exactly the words
      clean_word accepts, then the join. */
  method CleanLine(line: string, byLetters: bool) returns (sentence: string)
    ensures sentence == CleanSentence(line)
  {
    var segments := Split(line, ' ');
    var words := segments[..|segments| - 1];
    var cleanSentence: seq<string> := [];
    for j := 0 to |words|
      invariant cleanSentence == KeptWords(words[..j])
    {
      assert words[..j + 1][..j] == words[..j];
      var cleanedWord: Option<string> := None;
      if byLetters {
        var cwTemp := CleanWordScan(words[j]);
        if cwTemp.None? {
          continue;
        }
        cleanedWord := cwTemp;
      } else {
        cleanedWord := CleanWordScan(words[j]);
      }
      if cleanedWord.Some? {
        cleanSentence := cleanSentence + [cleanedWord.value];
      }
    }
    assert words[..|words|] == words;
    sentence := Join(cleanSentence, ' ');
  }

  /** clean_set as written: the lines one by one, keeping each non-empty cleaned sentence.
      The result is the same whichever way `byLetters` is set. */
  method CleanSetLoop(rawSet: seq<string>, byLetters: bool) returns (cleanSet: seq<string>)
    ensures cleanSet == CleanSet(rawSet)
  {
    cleanSet := [];
    for i := 0 to |rawSet|
      invariant cleanSet == CleanSet(rawSet[..i])
    {
      var sentence := CleanLine(rawSet[i], byLetters);
      assert rawSet[..i + 1] == rawSet[..i] + [rawSet[i]];
      CleanSetSnoc(rawSet[..i], rawSet[i]);
      if sentence != "" {
        cleanSet := cleanSet + [sentence];
      }
    }
    assert rawSet[..|rawSet|] == rawSet;
  }

  /** Cleaning one more line appends that line's sentence when it is non-empty. */
  lemma CleanSetSnoc(rawSet: seq<string>, line: string)
    ensures CleanSet(rawSet + [line]) ==
      CleanSet(rawSet) + (if CleanSentence(line) != "" then [CleanSentence(line)] else [])
  {
    assert (rawSet + [line])[..|rawSet|] == rawSet;
    var sentences := Sentences(rawSet + [line]);
    assert sentences[..|rawSet|] == Sentences(rawSet);
  }

  /** clean_set treats each line on its own, so it keeps the relative order of the lines:
      cleaning a concatenation is concatenating the cleanings. */
  lemma {:induction false} CleanSetAppend(a: seq<string>, b: seq<string>)
    ensures CleanSet(a + b) == CleanSet(a) + CleanSet(b)
    decreases |b|
  {
    if |b| == 0 {
      assert a + b == a;
    } else {
      var b' := b[..|b| - 1];
      var line := b[|b| - 1];
      assert a + b == (a + b') + [line];
      assert b == b' + [line];
      CleanSetAppend(a, b');
      CleanSetSnoc(a + b', line);
      CleanSetSnoc(b', line);
    }
  }

  /** A single line contributes its cleaned sentence exactly when that is non-empty. */
  lemma CleanSetSingle(line: string)
    ensures CleanSet([line]) == if CleanSentence(line) != "" then [CleanSentence(line)] else []
  {
    CleanSetSnoc([], line);
  }

  /** The kept words of a line contain no space, since they come from segments of a
      split on ' '. */
  lemma LineWordsSpaceFree(line: string)
    ensures forall k :: 0 <= k < |LineWords(line)| ==> ' ' !in LineWords(line)[k]
  {
    var segments := Split(line, ' ');
    var words := segments[..|segments| - 1];
    forall k | 0 <= k < |LineWords(line)|
      ensures ' ' !in LineWords(line)[k]
    {
      KeptWordsMembers(words, LineWords(line)[k]);
      var i :| 0 <= i < |words| && CleanWord(words[i]) == Some(LineWords(line)[k]);
      CleanWordSpaceFree(words[i]);
    }
  }

  /** A line's cleaned sentence is empty exactly when no word of it was kept; otherwise
      splitting the sentence on ' ' gives back exactly the kept words, in order. */
  lemma SentenceRoundTrip(line: string)
    ensures CleanSentence(line) == "" <==> LineWords(line) == []
    ensures CleanSentence(line) != "" ==> Split(CleanSentence(line), ' ') == LineWords(line)
  {
    var ws := LineWords(line);
    JoinNonEmpty(ws, ' ');
    if ws != [] {
      LineWordsSpaceFree(line);
      SplitJoin(ws, ' ');
    }
  }

  /** The last ' '-separated segment of a line never reaches the sentence: whatever follows
      the last space is discarded, even a valid word. */
  lemma LastSegmentDiscarded(head: string, last: string)
    requires ' ' !in last
    ensures LineWords(head + [' '] + last) == KeptWords(Split(head, ' '))
  {
    SplitAppend(head, last, ' ');
    SplitNoSeparator(last, ' ');
    var segments := Split(head, ' ') + [last];
    assert segments[..|segments| - 1] == Split(head, ' ');
  }

  /** A line without a space contributes nothing, even when it is a valid word. */
  lemma NoSpaceLineDropped(line: string)
    requires ' ' !in line
    ensures LineWords(line) == []
    ensures CleanSet([line]) == []
  {
    SplitNoSeparator(line, ' ');
    CleanSetSingle(line);
  }

  /** The words of a list of sentences: every segment of every sentence split on ' '.
      Each sentence has at least one segment, so any sentence at all gives a word. */
  function WordSet(sentences: seq<string>): (words: set<string>)
    ensures |sentences| >= 1 ==> words != {}
    decreases |sentences|
  {
    if |sentences| == 0 then {}
    else
      var parts := Split(sentences[|sentences| - 1], ' ');
      var last := set w | w in parts;
      assert parts[0] in last;
      WordSet(sentences[..|sentences| - 1]) + last
  }

  /** A word is in the set exactly when it is a segment of one of the sentences. */
  lemma {:induction false} WordSetMembers(sentences: seq<string>, w: string)
    ensures w in WordSet(sentences) <==>
      exists i :: 0 <= i < |sentences| && w in Split(sentences[i], ' ')
    decreases |sentences|
  {
    if |sentences| > 0 {
      var earlier := sentences[..|sentences| - 1];
      WordSetMembers(earlier, w);
      assert forall i :: 0 <= i < |earlier| ==> earlier[i] == sentences[i];
    }
  }

  /** Every word of a cleaned sentence is a word kept from some line, and so a clean,
      space-free token. */
  lemma CleanedWordsAreTokens(rawSet: seq<string>, w: string)
    requires w in WordSet(CleanSet(rawSet))
    ensures exists i :: 0 <= i < |rawSet| && w in LineWords(rawSet[i])
    ensures IsCleanToken(w) && ' ' !in w
  {
    var cset := CleanSet(rawSet);
    WordSetMembers(cset, w);
    var m :| 0 <= m < |cset| && w in Split(cset[m], ' ');
    CleanSetMembers(rawSet, cset[m]);
    var i :| 0 <= i < |rawSet| && CleanSentence(rawSet[i]) == cset[m];
    SentenceRoundTrip(rawSet[i]);
    LineWordsSpaceFree(rawSet[i]);
  }

  /** Every word kept from a line appears among the words of the cleaned sentences. */
  lemma KeptWordsReachWordSet(rawSet: seq<string>, i: int, w: string)
    requires 0 <= i < |rawSet| && w in LineWords(rawSet[i])
    ensures w in WordSet(CleanSet(rawSet))
  {
    var cset := CleanSet(rawSet);
    SentenceRoundTrip(rawSet[i]);
    var s := CleanSentence(rawSet[i]);
    CleanSetMembers(rawSet, s);
    var m :| 0 <= m < |cset| && cset[m] == s;
    WordSetMembers(cset, w);
  }

  /** The word-set loop of gen_user_corpus: every ' '-separated segment of every sentence
      is added to a set. */
  method CollectWords(cset: seq<string>) returns (wordSet: set<string>)
    ensures forall w :: w in wordSet <==> exists i :: 0 <= i < |cset| && w in Split(cset[i], ' ')
  {
    wordSet := {};
    for i := 0 to |cset|
      invariant wordSet == WordSet(cset[..i])
    {
      var words := Split(cset[i], ' ');
      for j := 0 to |words|
        invariant wordSet == WordSet(cset[..i]) + (set k | 0 <= k < j :: words[k])
      {
        wordSet := wordSet + {words[j]};
      }
      assert cset[..i + 1][..i] == cset[..i];
      assert (set k | 0 <= k < |words| :: words[k]) == (set w | w in words);
    }
    assert cset[..|cset|] == cset;
    forall w {
      WordSetMembers(cset, w);
    }
  }

  /** `cset.extend(word_set)`: the elements of the set are appended to the sentences, each
      once, in the set's own iteration order, which the choice of `w` below leaves open. */
  method AppendWords(cset: seq<string>, wordSet: set<string>) returns (corpus: seq<string>)
    ensures |corpus| == |cset| + |wordSet|
    ensures corpus[..|cset|] == cset
    ensures NoDuplicates(corpus[|cset|..])
    ensures forall w :: w in corpus[|cset|..] <==> w in wordSet
  {
    corpus := cset;
    var rest := wordSet;
    while rest != {}
      invariant |cset| <= |corpus| && corpus[..|cset|] == cset
      invariant rest <= wordSet
      invariant NoDuplicates(corpus[|cset|..])
      invariant forall w :: w in corpus[|cset|..] <==> w in wordSet && w !in rest
      invariant |corpus| - |cset| + |rest| == |wordSet|
      decreases rest
    {
      var w :| w in rest;
      assert (corpus + [w])[|cset|..] == corpus[|cset|..] + [w];
      corpus := corpus + [w];
      rest := rest - {w};
    }
  }

  /** No text is collected exactly when no record from `sender` has content. */
  lemma SenderTextsEmpty(sender: string, messages: seq<Message>)
    ensures SenderTexts(sender, messages) == [] <==>
      forall i :: 0 <= i < |messages| ==> messages[i].senderName != sender || messages[i].content.None?
  {
    var texts := SenderTexts(sender, messages);
    if texts != [] {
      SenderTextsMembers(sender, messages, texts[0]);
    } else {
      forall i | 0 <= i < |messages| && messages[i].senderName == sender && messages[i].content.Some?
        ensures false
      {
        SenderTextsMembers(sender, messages, messages[i].content.value);
      }
    }
  }

  /** gen_user_corpus without its file reading and writing: the cleaned sentences of the
      sender's texts, duplicates kept, followed by each distinct word of them once; every
      such word is a clean token without spaces. */
  method GenUserCorpus(sender: string, messages: seq<Message>) returns (corpus: seq<string>)
    ensures var cset := CleanSet(SenderTexts(sender, messages));
      && |cset| <= |corpus|
      && corpus[..|cset|] == cset
      && NoDuplicates(corpus[|cset|..])
      && (forall w :: w in corpus[|cset|..] <==> w in WordSet(cset))
      && (forall w :: w in corpus[|cset|..] ==> IsCleanToken(w) && ' ' !in w)
    ensures (forall i :: 0 <= i < |messages| ==>
      messages[i].senderName != sender || messages[i].content.None?) ==> corpus == []
  {
    var parsed := SenderTexts(sender, messages);
    var cset := CleanSetLoop(parsed, false);
    var wordSet := CollectWords(cset);
    assert wordSet == WordSet(cset) by {
      forall w {
        WordSetMembers(cset, w);
      }
    }
    corpus := AppendWords(cset, wordSet);
    forall w | w in wordSet
      ensures IsCleanToken(w) && ' ' !in w
    {
      CleanedWordsAreTokens(parsed, w);
    }
    SenderTextsEmpty(sender, messages);
  }
}
