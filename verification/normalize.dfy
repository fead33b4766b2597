/**
 * `remove_emoji` and `clean_text`: the six character-level steps that turn
 * a tweet into lower-case tokens, and what their output is guaranteed to
 * look like. Emoji membership and the stop-word list are parameters.
 */
module Normalize {
  import opened PyStrings
  import opened Seqs

  /** The punctuation `clean_text` strips: every character here, including the backslash, but not `#`. */
  const Punctuation: string := "!()-[]{};:'\"\\,<>./?@$%^&*_~"

  predicate NotPunctuation(c: char) { c !in Punctuation }
  predicate NotNewline(c: char) { c != '\n' }
  predicate NotTab(c: char) { c != '\t' }
  predicate NotBlankChar(c: char) { c != ' ' }

  /** Step 1: drop every punctuation character, keep the rest in order. */
  function RemovePunctuation(text: string): (r: string)
    ensures All(r, NotPunctuation)
    ensures forall i :: 0 <= i < |r| ==> r[i] in text
    ensures forall i :: 0 <= i < |text| && NotPunctuation(text[i]) ==> text[i] in r
  {
    KeepMembers(text, NotPunctuation);
    Keep(text, NotPunctuation)
  }

  /**
   * Punctuation removal works one character at a time: the result for a
   * concatenation is the concatenation of the results, and one character
   * is kept exactly when it is not punctuation. The two facts together fix
   * the result for every text.
   */
  lemma RemovePunctuationPerChar(a: string, b: string, c: char)
    ensures RemovePunctuation(a + b) == RemovePunctuation(a) + RemovePunctuation(b)
    ensures RemovePunctuation([c]) == if NotPunctuation(c) then [c] else []
  {
    KeepConcat(a, b, NotPunctuation);
    KeepOne(c, NotPunctuation);
  }

  /** Some character of `emojiList` occurs in the word. */
  predicate CarriesAny(word: string, emojiList: string)
  {
    exists i :: 0 <= i < |emojiList| && emojiList[i] in word
  }

  /** The words that contain no character of `emojiList`, in order. */
  function DropCarriers(words: seq<string>, emojiList: string): (r: seq<string>)
    ensures |r| <= |words|
    ensures forall k :: 0 <= k < |r| ==> r[k] in words && !CarriesAny(r[k], emojiList)
    ensures forall k :: 0 <= k < |words| && !CarriesAny(words[k], emojiList) ==> words[k] in r
    ensures (forall k :: 0 <= k < |words| ==> !CarriesAny(words[k], emojiList)) ==> r == words
  {
    if |words| == 0 then []
    else (if CarriesAny(words[0], emojiList) then [] else [words[0]]) + DropCarriers(words[1..], emojiList)
  }

  /**
   * Step 2, `remove_emoji`: collect the emoji characters of the text, then
   * split the text on whitespace and re-join with single spaces the words
   * that contain none of them.
   */
  function RemoveEmoji(isEmoji: char -> bool, text: string): (r: string)
    ensures r == Join(" ", EmojiFreeWords(isEmoji, SplitWhitespace(text)))
    ensures SplitWhitespace(r) == EmojiFreeWords(isEmoji, SplitWhitespace(text))
  {
    var words := SplitWhitespace(text);
    var emojiList := Keep(text, isEmoji);
    SplitWhitespaceFrom(text);
    DropCarriersIsEmojiFree(isEmoji, words, text);
    JoinThenSplitWhitespace(DropCarriers(words, emojiList));
    Join(" ", DropCarriers(words, emojiList))
  }

  predicate HasEmoji(isEmoji: char -> bool, word: string)
  {
    exists i :: 0 <= i < |word| && isEmoji(word[i])
  }

  /** Reference definition: the words with no emoji character, in order. */
  function EmojiFreeWords(isEmoji: char -> bool, words: seq<string>): seq<string>
  {
    if |words| == 0 then []
    else (if HasEmoji(isEmoji, words[0]) then [] else [words[0]]) + EmojiFreeWords(isEmoji, words[1..])
  }

  /** Every character of every word is a character of `text`. */
  predicate WordsFrom(words: seq<string>, text: string)
  {
    forall k, i :: 0 <= k < |words| && 0 <= i < |words[k]| ==> words[k][i] in text
  }

  lemma SplitWhitespaceFrom(text: string)
    ensures WordsFrom(SplitWhitespace(text), text)
  {
    SplitWhitespaceAll(text, c => c in text);
  }

  /**
   * For words taken from the text, carrying a character of the text's
   * emoji list is the same as holding an emoji character.
   */
  lemma {:induction false} DropCarriersIsEmojiFree(isEmoji: char -> bool, words: seq<string>, text: string)
    requires WordsFrom(words, text)
    ensures DropCarriers(words, Keep(text, isEmoji)) == EmojiFreeWords(isEmoji, words)
  {
    if |words| > 0 {
      var w := words[0];
      var emojiList := Keep(text, isEmoji);
      if HasEmoji(isEmoji, w) {
        var i :| 0 <= i < |w| && isEmoji(w[i]);
        assert w[i] in text;
        var j :| 0 <= j < |text| && text[j] == w[i];
        KeepMembers(text, isEmoji);
        assert text[j] in emojiList;
        var e :| 0 <= e < |emojiList| && emojiList[e] == text[j];
        assert CarriesAny(w, emojiList);
      }
      DropCarriersIsEmojiFree(isEmoji, words[1..], text);
    }
  }

  /**
   * The result of `remove_emoji` holds no emoji character, and its only
   * whitespace is the single space it joins the words with.
   */
  lemma RemoveEmojiChars(isEmoji: char -> bool, text: string)
    ensures All(RemoveEmoji(isEmoji, text), c => c == ' ' || (!isEmoji(c) && NotSpace(c)))
  {
    var words := SplitWhitespace(text);
    var kept := DropCarriers(words, Keep(text, isEmoji));
    SplitWhitespaceFrom(text);
    DropCarriersIsEmojiFree(isEmoji, words, text);
    EmojiFreeWordsClean(isEmoji, words);
    JoinAll(" ", kept, c => c == ' ' || (!isEmoji(c) && NotSpace(c)));
  }

  lemma {:induction false} EmojiFreeWordsClean(isEmoji: char -> bool, words: seq<string>)
    requires forall k :: 0 <= k < |words| ==> All(words[k], NotSpace)
    ensures forall k :: 0 <= k < |EmojiFreeWords(isEmoji, words)| ==>
              All(EmojiFreeWords(isEmoji, words)[k], c => c == ' ' || (!isEmoji(c) && NotSpace(c)))
  {
    if |words| > 0 {
      EmojiFreeWordsClean(isEmoji, words[1..]);
    }
  }

  /** A character property of the text that holds of the space survives `remove_emoji`. */
  lemma RemoveEmojiKeeps(isEmoji: char -> bool, text: string, p: char -> bool)
    requires p(' ')
    requires forall i :: 0 <= i < |text| && NotSpace(text[i]) ==> p(text[i])
    ensures All(RemoveEmoji(isEmoji, text), p)
  {
    var words := SplitWhitespace(text);
    var kept := DropCarriers(words, Keep(text, isEmoji));
    SplitWhitespaceFrom(text);
    forall k | 0 <= k < |kept|
      ensures All(kept[k], p)
    {
      assert kept[k] in words;
      var m :| 0 <= m < |words| && words[m] == kept[k];
      forall i | 0 <= i < |kept[k]|
        ensures p(kept[k][i])
      {
        assert NotSpace(words[m][i]);
        assert words[m][i] in text;
      }
    }
    JoinAll(" ", kept, p);
  }

  /** Step 3: drop every newline, then every tab. */
  function RemoveNewlinesAndTabs(text: string): (r: string)
    ensures All(r, NotNewline) && All(r, NotTab)
    ensures All(text, NotNewline) && All(text, NotTab) ==> r == text
  {
    KeepAll(Keep(text, NotNewline), NotTab, NotNewline);
    Keep(Keep(text, NotNewline), NotTab)
  }

  /** Step 3 works one character at a time, and keeps one character exactly when it is neither newline nor tab. */
  lemma RemoveNewlinesAndTabsPerChar(a: string, b: string, c: char)
    ensures RemoveNewlinesAndTabs(a + b) == RemoveNewlinesAndTabs(a) + RemoveNewlinesAndTabs(b)
    ensures RemoveNewlinesAndTabs([c]) == if c != '\n' && c != '\t' then [c] else []
  {
    KeepConcat(a, b, NotNewline);
    KeepConcat(Keep(a, NotNewline), Keep(b, NotNewline), NotTab);
    KeepOne(c, NotNewline);
    KeepOne(c, NotTab);
  }

  /** Step 4: drop every character `encode('ascii')` rejects. */
  function RemoveNonAscii(text: string): (r: string)
    ensures All(r, IsAscii)
    ensures All(text, IsAscii) ==> r == text
  {
    Keep(text, IsAscii)
  }

  /** Step 4 works one character at a time, and keeps one character exactly when it is ASCII. */
  lemma RemoveNonAsciiPerChar(a: string, b: string, c: char)
    ensures RemoveNonAscii(a + b) == RemoveNonAscii(a) + RemoveNonAscii(b)
    ensures RemoveNonAscii([c]) == if IsAscii(c) then [c] else []
  {
    KeepConcat(a, b, IsAscii);
    KeepOne(c, IsAscii);
  }

  /** No ASCII letter or digit is immediately followed by `#`. */
  predicate NoAlnumBeforeHash(s: string)
  {
    forall i :: 0 <= i < |s| - 1 ==> !(IsAlnum(s[i]) && s[i + 1] == '#')
  }

  /**
   * Step 5, the regular-expression substitution: the text is scanned from
   * left to right, and each match, an ASCII letter or digit with `#` right
   * after it, is rewritten with a space between the two characters.
   */
  function SpaceBeforeHashes(text: string): (r: string)
    ensures NoAlnumBeforeHash(r)
    ensures |text| > 0 ==> |r| > 0 && r[0] == text[0]
    decreases |text|
  {
    if |text| < 2 then text
    else if IsAlnum(text[0]) && text[1] == '#' then [text[0], ' ', '#'] + SpaceBeforeHashes(text[2..])
    else [text[0]] + SpaceBeforeHashes(text[1..])
  }

  /** The substitution only inserts spaces: deleting all spaces gives the same text before and after. */
  lemma {:induction false} SpaceBeforeHashesOnlyAddsSpaces(text: string)
    ensures Keep(SpaceBeforeHashes(text), NotBlankChar) == Keep(text, NotBlankChar)
    decreases |text|
  {
    if |text| >= 2 {
      if IsAlnum(text[0]) && text[1] == '#' {
        SpaceBeforeHashesOnlyAddsSpaces(text[2..]);
        KeepInsertedSpace(text, SpaceBeforeHashes(text[2..]));
      } else {
        SpaceBeforeHashesOnlyAddsSpaces(text[1..]);
        KeepCons(text, SpaceBeforeHashes(text[1..]));
      }
    }
  }

  lemma KeepInsertedSpace(text: string, rest: string)
    requires |text| >= 2 && IsAlnum(text[0]) && text[1] == '#'
    requires Keep(rest, NotBlankChar) == Keep(text[2..], NotBlankChar)
    ensures Keep([text[0], ' ', '#'] + rest, NotBlankChar) == Keep(text, NotBlankChar)
  {
    var s := [text[0], ' ', '#'] + rest;
    assert s[1..] == [' ', '#'] + rest;
    assert ([' ', '#'] + rest)[1..] == ['#'] + rest;
    assert (['#'] + rest)[1..] == rest;
    assert Keep(['#'] + rest, NotBlankChar) == ['#'] + Keep(rest, NotBlankChar);
    assert Keep([' ', '#'] + rest, NotBlankChar) == ['#'] + Keep(rest, NotBlankChar);
    assert Keep(text[1..], NotBlankChar) == ['#'] + Keep(text[2..], NotBlankChar) by {
      assert text[1..][1..] == text[2..];
    }
  }

  lemma KeepCons(text: string, rest: string)
    requires |text| >= 1
    requires Keep(rest, NotBlankChar) == Keep(text[1..], NotBlankChar)
    ensures Keep([text[0]] + rest, NotBlankChar) == Keep(text, NotBlankChar)
  {
    assert ([text[0]] + rest)[1..] == rest;
  }

  /** A character property that holds of the text and of the space holds of the result. */
  lemma {:induction false} SpaceBeforeHashesKeeps(text: string, p: char -> bool)
    requires All(text, p) && p(' ')
    ensures All(SpaceBeforeHashes(text), p)
    decreases |text|
  {
    if |text| >= 2 {
      if IsAlnum(text[0]) && text[1] == '#' {
        SpaceBeforeHashesKeeps(text[2..], p);
      } else {
        SpaceBeforeHashesKeeps(text[1..], p);
      }
    }
  }

  /** On text where no letter or digit precedes `#`, the substitution changes nothing. */
  lemma {:induction false} SpaceBeforeHashesIdentity(text: string)
    requires NoAlnumBeforeHash(text)
    ensures SpaceBeforeHashes(text) == text
    decreases |text|
  {
    if |text| >= 2 {
      SpaceBeforeHashesIdentity(text[1..]);
      assert [text[0]] + text[1..] == text;
    }
  }

  /**
   * Reference for step 5, one position at a time: every character is
   * kept, and a space follows each ASCII letter or digit whose next
   * character is `#`.
   */
  function SpacedBeforeHash(text: string): string
  {
    if |text| == 0 then ""
    else
      var spaced := |text| > 1 && IsAlnum(text[0]) && text[1] == '#';
      (if spaced then [text[0], ' '] else [text[0]]) + SpacedBeforeHash(text[1..])
  }

  /**
   * The left-to-right substitution inserts exactly one space before each
   * `#` that follows a letter or digit and changes nothing else: no match
   * is missed by the scan, because a match ends with `#`, which cannot
   * start the next one.
   */
  lemma {:induction false} SpaceBeforeHashesIsReference(text: string)
    ensures SpaceBeforeHashes(text) == SpacedBeforeHash(text)
    decreases |text|
  {
    if |text| == 1 {
      assert SpacedBeforeHash(text) == [text[0]] + SpacedBeforeHash(text[1..]);
    } else if |text| >= 2 {
      if IsAlnum(text[0]) && text[1] == '#' {
        SpaceBeforeHashesIsReference(text[2..]);
        assert text[1..][1..] == text[2..];
        assert SpacedBeforeHash(text[1..]) == ['#'] + SpacedBeforeHash(text[2..]);
      } else {
        SpaceBeforeHashesIsReference(text[1..]);
      }
    }
  }

  /** A lower-cased word kept by the token filter. */
  predicate Admissible(stopwords: set<string>, word: string)
  {
    !Contains(word, "http") && Strip(word) != "" && word !in stopwords
  }

  /**
   * Step 6, the token loop: lower-case every word, and keep it when it
   * holds no "http", is not blank and is not a stop-word.
   */
  function FilterTokens(stopwords: set<string>, words: seq<string>): (r: seq<string>)
    ensures |r| <= |words|
    ensures forall k :: 0 <= k < |r| ==> Admissible(stopwords, r[k]) && All(r[k], NotUpper)
  {
    if |words| == 0 then []
    else
      var w := Lower(words[0]);
      (if Admissible(stopwords, w) then [w] else []) + FilterTokens(stopwords, words[1..])
  }

  /**
   * The token loop handles each word on its own: the result for two word
   * lists one after the other is the two results one after the other.
   */
  lemma FilterTokensConcat(stopwords: set<string>, a: seq<string>, b: seq<string>)
    ensures FilterTokens(stopwords, a + b) == FilterTokens(stopwords, a) + FilterTokens(stopwords, b)
  {
    var f := words => FilterTokens(stopwords, words);
    forall w, rest
      ensures f([w] + rest) == f([w]) + f(rest)
    {
      FilterTokensCons(stopwords, w, rest);
    }
    ConcatFromCons(f, a, b);
  }

  lemma FilterTokensCons(stopwords: set<string>, w: string, rest: seq<string>)
    ensures FilterTokens(stopwords, [w] + rest) == FilterTokens(stopwords, [w]) + FilterTokens(stopwords, rest)
  {
    assert ([w] + rest)[1..] == rest;
    assert [w][1..] == [];
  }

  /** One word gives its lower-cased form exactly when that is admissible, and nothing otherwise. */
  lemma FilterTokensOne(stopwords: set<string>, w: string)
    ensures FilterTokens(stopwords, [w]) == if Admissible(stopwords, Lower(w)) then [Lower(w)] else []
  {
    assert [w][1..] == [];
  }

  predicate NotUpper(c: char) { !IsUpper(c) }

  /**
   * `clean_text`: steps 1 to 5, then the split on single spaces and the
   * token filter. Every token it returns is non-empty, lower-case ASCII
   * without punctuation or whitespace, has no letter or digit directly
   * before a `#`, holds no "http" and is not a stop-word.
   */
  function CleanText(isEmoji: char -> bool, stopwords: set<string>, text: string): (r: seq<string>)
    ensures forall k :: 0 <= k < |r| ==> CleanToken(stopwords, r[k])
  {
    var prepared := Prepare(isEmoji, text);
    SplitOnAll(prepared, ' ', AsciiTame);
    SplitOnNoAlnumBeforeHash(prepared, ' ');
    FilterTokensClean(stopwords, SplitOn(prepared, ' '));
    FilterTokens(stopwords, SplitOn(prepared, ' '))
  }

  /**
   * Steps 1 to 5 of `clean_text`: the text just before it is split. It is
   * ASCII without punctuation, its only whitespace is the space, and no
   * letter or digit touches a following `#`.
   */
  function Prepare(isEmoji: char -> bool, text: string): (r: string)
    ensures All(r, AsciiTame)
    ensures NoAlnumBeforeHash(r)
  {
    var noPunctuation := RemovePunctuation(text);
    var noEmoji := RemoveEmoji(isEmoji, noPunctuation);
    var noControl := RemoveNewlinesAndTabs(noEmoji);
    var ascii := RemoveNonAscii(noControl);
    TameAfterEmoji(isEmoji, text);
    TameAscii(noEmoji);
    SpaceNotPunctuation();
    SpaceBeforeHashesKeeps(ascii, AsciiTame);
    SpaceBeforeHashes(ascii)
  }

  /** What every character of a `clean_text` token is: ASCII, not punctuation, not whitespace, not upper case. */
  predicate CleanChar(c: char)
  {
    IsAscii(c) && NotPunctuation(c) && NotSpace(c) && !IsUpper(c)
  }

  /** What every `clean_text` token is. */
  predicate CleanToken(stopwords: set<string>, w: string)
  {
    && |w| > 0
    && All(w, CleanChar)
    && NoAlnumBeforeHash(w)
    && !Contains(w, "http")
    && w !in stopwords
  }

  /** Between punctuation removal and the split: no punctuation, and no whitespace but the space. */
  predicate Tame(c: char)
  {
    NotPunctuation(c) && (c == ' ' || NotSpace(c))
  }

  predicate AsciiTame(c: char)
  {
    IsAscii(c) && Tame(c)
  }

  lemma TameAfterEmoji(isEmoji: char -> bool, text: string)
    ensures All(RemoveEmoji(isEmoji, RemovePunctuation(text)), Tame)
  {
    var noPunctuation := RemovePunctuation(text);
    SpaceNotPunctuation();
    RemoveEmojiKeeps(isEmoji, noPunctuation, Tame);
  }

  lemma TameAscii(text: string)
    requires All(text, Tame)
    ensures All(RemoveNonAscii(RemoveNewlinesAndTabs(text)), AsciiTame)
  {
    var noNewline := Keep(text, NotNewline);
    KeepAll(text, NotNewline, Tame);
    KeepAll(noNewline, NotTab, Tame);
    KeepAll(Keep(noNewline, NotTab), IsAscii, Tame);
  }

  /** A slice of text with no letter or digit before `#` has none either. */
  lemma NoAlnumBeforeHashSlice(s: string, i: nat, j: nat)
    requires i <= j <= |s| && NoAlnumBeforeHash(s)
    ensures NoAlnumBeforeHash(s[i..j])
  {
    forall m | 0 <= m < j - i - 1
      ensures !(IsAlnum(s[i..j][m]) && s[i..j][m + 1] == '#')
    {
      assert s[i..j][m] == s[i + m] && s[i..j][m + 1] == s[i + m + 1];
    }
  }

  /** The pieces of a split inherit the absence of a letter or digit before `#`. */
  lemma {:induction false} SplitOnNoAlnumBeforeHash(s: string, sep: char)
    requires NoAlnumBeforeHash(s)
    ensures forall k :: 0 <= k < |SplitOn(s, sep)| ==> NoAlnumBeforeHash(SplitOn(s, sep)[k])
  {
    if |s| > 0 {
      NoAlnumBeforeHashSlice(s, 1, |s|);
      SplitOnNoAlnumBeforeHash(s[1..], sep);
      var rest := SplitOn(s[1..], sep);
      if s[0] != sep {
        assert [s[0]] + rest[0] == s[..1 + |rest[0]|];
        NoAlnumBeforeHashSlice(s, 0, 1 + |rest[0]|);
      }
    }
  }

  /** Lower-casing maps letters to letters and leaves `#` and every other character alone. */
  lemma LowerClean(w: string)
    requires All(w, AsciiTame) && ' ' !in w && NoAlnumBeforeHash(w)
    ensures All(Lower(w), CleanChar) && NoAlnumBeforeHash(Lower(w))
  {
    var r := Lower(w);
    forall i | 0 <= i < |r|
      ensures CleanChar(r[i])
    {
      LowerCharClean(w[i]);
    }
    forall i | 0 <= i < |r| - 1
      ensures !(IsAlnum(r[i]) && r[i + 1] == '#')
    {
      LowerCharClean(w[i]);
      LowerCharClean(w[i + 1]);
    }
  }

  lemma LowerCharClean(c: char)
    ensures AsciiTame(c) && c != ' ' ==> CleanChar(LowerChar(c))
    ensures IsAlnum(LowerChar(c)) == IsAlnum(c)
    ensures LowerChar(c) == '#' <==> c == '#'
  {
    if IsUpper(c) {
      LetterNotPunctuation(LowerChar(c));
    }
  }

  /** The space is not punctuation. */
  lemma SpaceNotPunctuation()
    ensures NotPunctuation(' ')
  {
    assert forall i :: 0 <= i < |Punctuation| ==> Punctuation[i] != ' ';
  }

  /** No lower-case letter is punctuation. */
  lemma LetterNotPunctuation(c: char)
    requires 'a' <= c <= 'z'
    ensures NotPunctuation(c)
  {
    assert forall i :: 0 <= i < |Punctuation| ==> Punctuation[i] < 'a' || 'z' < Punctuation[i];
  }

  /** The token filter turns tame, separator-free pieces into clean tokens. */
  lemma {:induction false} FilterTokensClean(stopwords: set<string>, words: seq<string>)
    requires forall k :: 0 <= k < |words| ==>
               All(words[k], AsciiTame) && ' ' !in words[k] && NoAlnumBeforeHash(words[k])
    ensures forall k :: 0 <= k < |FilterTokens(stopwords, words)| ==>
              CleanToken(stopwords, FilterTokens(stopwords, words)[k])
  {
    if |words| > 0 {
      LowerClean(words[0]);
      FilterTokensClean(stopwords, words[1..]);
    }
  }

  /**
   * The emoji table holds no ASCII character. This is true of the emoji
   * library's table, whose single-character entries are all outside ASCII.
   */
  predicate EmojiNonAscii(isEmoji: char -> bool)
  {
    forall c :: isEmoji(c) ==> !IsAscii(c)
  }

  /**
   * With an emoji table that holds no ASCII character, no token of
   * `clean_text` holds an emoji: every token character is ASCII.
   */
  lemma CleanTextNoEmoji(isEmoji: char -> bool, stopwords: set<string>, text: string)
    requires EmojiNonAscii(isEmoji)
    ensures var tokens := CleanText(isEmoji, stopwords, text);
            forall k, i :: 0 <= k < |tokens| && 0 <= i < |tokens[k]| ==> !isEmoji(tokens[k][i])
  {
    var tokens := CleanText(isEmoji, stopwords, text);
    forall k, i | 0 <= k < |tokens| && 0 <= i < |tokens[k]|
      ensures !isEmoji(tokens[k][i])
    {
      assert CleanChar(tokens[k][i]);
    }
  }

  /** A character of clean tokens joined by spaces. */
  predicate SpacedChar(c: char)
  {
    c == ' ' || CleanChar(c)
  }

  /**
   * `clean_text` is idempotent: cleaning the space-joined tokens of a
   * cleaned text gives the same tokens again.
   */
  lemma CleanTextIdempotent(isEmoji: char -> bool, stopwords: set<string>, text: string)
    requires EmojiNonAscii(isEmoji)
    ensures var tokens := CleanText(isEmoji, stopwords, text);
            CleanText(isEmoji, stopwords, Join(" ", tokens)) == tokens
  {
    CleanTokensFixpoint(isEmoji, stopwords, CleanText(isEmoji, stopwords, text));
  }

  /** Clean tokens joined by spaces come back unchanged from `clean_text`. */
  lemma CleanTokensFixpoint(isEmoji: char -> bool, stopwords: set<string>, words: seq<string>)
    requires EmojiNonAscii(isEmoji)
    requires forall k :: 0 <= k < |words| ==> CleanToken(stopwords, words[k])
    ensures CleanText(isEmoji, stopwords, Join(" ", words)) == words
  {
    PrepareFixpointOfTokens(isEmoji, stopwords, words);
    SplitFilterFixpointOfTokens(stopwords, words);
  }

  lemma PrepareFixpointOfTokens(isEmoji: char -> bool, stopwords: set<string>, words: seq<string>)
    requires EmojiNonAscii(isEmoji)
    requires forall k :: 0 <= k < |words| ==> CleanToken(stopwords, words[k])
    ensures Prepare(isEmoji, Join(" ", words)) == Join(" ", words)
  {
    CleanTokenShape(stopwords, words);
    PrepareFixpoint(isEmoji, words);
  }

  lemma SplitFilterFixpointOfTokens(stopwords: set<string>, words: seq<string>)
    requires forall k :: 0 <= k < |words| ==> CleanToken(stopwords, words[k])
    ensures FilterTokens(stopwords, SplitOn(Join(" ", words), ' ')) == words
  {
    CleanTokenAdmissible(stopwords, words);
    SplitFilterFixpoint(stopwords, words);
  }

  /** The shape of clean tokens that steps 1 to 5 rely on. */
  predicate Spaceable(words: seq<string>)
  {
    && (forall k :: 0 <= k < |words| ==> |words[k]| > 0 && All(words[k], NotSpace))
    && (forall k :: 0 <= k < |words| ==> All(words[k], SpacedChar))
    && (forall k :: 0 <= k < |words| ==> NoAlnumBeforeHash(words[k]))
  }

  lemma CleanTokenShape(stopwords: set<string>, words: seq<string>)
    requires forall k :: 0 <= k < |words| ==> CleanToken(stopwords, words[k])
    ensures Spaceable(words)
  {
  }

  /** Clean tokens hold no space and pass the token filter. */
  lemma CleanTokenAdmissible(stopwords: set<string>, words: seq<string>)
    requires forall k :: 0 <= k < |words| ==> CleanToken(stopwords, words[k])
    ensures forall k :: 0 <= k < |words| ==> ' ' !in words[k]
    ensures forall k :: 0 <= k < |words| ==> Admissible(stopwords, words[k]) && All(words[k], NotUpper)
  {
    forall k | 0 <= k < |words|
      ensures ' ' !in words[k]
      ensures Admissible(stopwords, words[k]) && All(words[k], NotUpper)
    {
      StripEmpty(words[k]);
      assert CleanChar(words[k][0]);
    }
  }

  /** Splitting the joined tokens on spaces and filtering them gives the tokens back. */
  lemma SplitFilterFixpoint(stopwords: set<string>, words: seq<string>)
    requires forall k :: 0 <= k < |words| ==> ' ' !in words[k]
    requires forall k :: 0 <= k < |words| ==> Admissible(stopwords, words[k]) && All(words[k], NotUpper)
    ensures FilterTokens(stopwords, SplitOn(Join(" ", words), ' ')) == words
  {
    if |words| == 0 {
      assert SplitOn("", ' ') == [""];
      assert Strip("") == "";
    } else {
      JoinThenSplitOn(words, ' ');
      FilterTokensFixpoint(stopwords, words);
    }
  }

  /** Steps 1 to 5 change nothing in clean tokens joined by spaces. */
  lemma PrepareFixpoint(isEmoji: char -> bool, words: seq<string>)
    requires EmojiNonAscii(isEmoji)
    requires Spaceable(words)
    ensures Prepare(isEmoji, Join(" ", words)) == Join(" ", words)
  {
    var text := Join(" ", words);
    JoinedCharacters(words);
    RemoveEmojiFixpoint(isEmoji, words);
    JoinNoAlnumBeforeHash(words);
    SpaceBeforeHashesIdentity(text);
  }

  /** Every character of the joined tokens is a space or a clean character, so punctuation, control and non-ASCII removal keep it all. */
  lemma JoinedCharacters(words: seq<string>)
    requires forall k :: 0 <= k < |words| ==> All(words[k], SpacedChar)
    ensures var text := Join(" ", words);
            All(text, NotPunctuation) && All(text, NotNewline) && All(text, NotTab) && All(text, IsAscii)
  {
    var text := Join(" ", words);
    JoinAll(" ", words, SpacedChar);
    forall i | 0 <= i < |text|
      ensures NotPunctuation(text[i]) && NotNewline(text[i]) && NotTab(text[i]) && IsAscii(text[i])
    {
      SpacedCharKept(text[i]);
    }
  }

  lemma SpacedCharKept(c: char)
    requires SpacedChar(c)
    ensures NotPunctuation(c) && NotNewline(c) && NotTab(c) && IsAscii(c)
  {
    if c == ' ' {
      SpaceNotPunctuation();
    }
  }

  /** No word of the joined tokens holds an emoji, so `remove_emoji` gives the text back. */
  lemma RemoveEmojiFixpoint(isEmoji: char -> bool, words: seq<string>)
    requires EmojiNonAscii(isEmoji)
    requires forall k :: 0 <= k < |words| ==> |words[k]| > 0 && All(words[k], NotSpace)
    requires All(Join(" ", words), IsAscii)
    ensures RemoveEmoji(isEmoji, Join(" ", words)) == Join(" ", words)
  {
    var text := Join(" ", words);
    KeepNone(text, isEmoji);
    JoinThenSplitWhitespace(words);
  }

  /** Joining with spaces puts no letter or digit in front of a `#` that the words do not have. */
  lemma {:induction false} JoinNoAlnumBeforeHash(words: seq<string>)
    requires forall k :: 0 <= k < |words| ==> NoAlnumBeforeHash(words[k])
    ensures NoAlnumBeforeHash(Join(" ", words))
  {
    if |words| > 1 {
      JoinNoAlnumBeforeHash(words[1..]);
      NoAlnumBeforeHashSpaced(words[0], Join(" ", words[1..]));
    }
  }

  lemma NoAlnumBeforeHashSpaced(a: string, b: string)
    requires NoAlnumBeforeHash(a) && NoAlnumBeforeHash(b)
    ensures NoAlnumBeforeHash(a + " " + b)
  {
    var s := a + " " + b;
    forall i | 0 <= i < |s| - 1
      ensures !(IsAlnum(s[i]) && s[i + 1] == '#')
    {
      if i + 1 < |a| {
        assert s[i] == a[i] && s[i + 1] == a[i + 1];
      } else if i > |a| {
        assert s[i] == b[i - |a| - 1] && s[i + 1] == b[i - |a|];
      }
    }
  }

  /** The token filter keeps lower-case admissible tokens as they are. */
  lemma {:induction false} FilterTokensFixpoint(stopwords: set<string>, words: seq<string>)
    requires forall k :: 0 <= k < |words| ==> Admissible(stopwords, words[k]) && All(words[k], NotUpper)
    ensures FilterTokens(stopwords, words) == words
  {
    if |words| > 0 {
      LowerIdentity(words[0]);
      FilterTokensFixpoint(stopwords, words[1..]);
    }
  }

  /** Filtering the filtered tokens again changes nothing. */
  lemma FilterTokensIdempotent(stopwords: set<string>, words: seq<string>)
    ensures FilterTokens(stopwords, FilterTokens(stopwords, words)) == FilterTokens(stopwords, words)
  {
    FilterTokensFixpoint(stopwords, FilterTokens(stopwords, words));
  }
}
