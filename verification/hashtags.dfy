/**
 * `parse_hashtags` and `count_hashtags`: both split the raw tweet text on
 * single spaces; a word containing `#` is a hashtag word.
 */
module Hashtags {
  import opened PyStrings
  import opened Seqs

  predicate HasHash(word: string) { '#' in word }
  predicate NoHash(word: string) { '#' !in word }

  /** The fragments of a squashed word, in order, each with a `#` in front; a fragment that is exactly "#" is skipped. */
  function TagFragments(fragments: seq<string>): (r: seq<string>)
    ensures (forall k :: 0 <= k < |fragments| ==> fragments[k] != "#") ==> |r| == |fragments|
    ensures (forall k :: 0 <= k < |fragments| ==> fragments[k] != "#") ==>
              forall k :: 0 <= k < |r| ==> r[k] == "#" + fragments[k]
  {
    if |fragments| == 0 then []
    else (if fragments[0] != "#" then ["#" + fragments[0]] else []) + TagFragments(fragments[1..])
  }

  /**
   * The hashtags of one word: a word with several `#` is split on `#` and
   * every piece, the empty piece before a leading `#` included, gets a `#`
   * in front; a word with a single `#` is kept as it is.
   */
  function WordHashtags(word: string): (r: seq<string>)
    ensures Count(word, '#') <= 1 ==> r == [word]
    ensures Count(word, '#') > 1 ==>
              && |r| == Count(word, '#') + 1
              && forall k :: 0 <= k < |r| ==> r[k] == "#" + SplitOn(word, '#')[k]
  {
    if Count(word, '#') > 1 then
      var pieces := SplitOn(word, '#');
      PiecesAreNotHash(pieces);
      TagFragments(pieces)
    else [word]
  }

  /**
   * A word with k > 1 hashes gives k + 1 hashtags, each "#" followed by one
   * piece of the split, so each holds exactly one `#`; glued back together
   * they give the word with one more `#` in front. The `!= '#'` guard never
   * drops anything, because no piece of a split on `#` contains `#`.
   */
  lemma SeveralHashes(word: string)
    requires Count(word, '#') > 1
    ensures var pieces := SplitOn(word, '#');
            && |WordHashtags(word)| == Count(word, '#') + 1
            && (forall k :: 0 <= k < |pieces| ==> WordHashtags(word)[k] == "#" + pieces[k])
            && (forall k :: 0 <= k < |pieces| ==> Count(WordHashtags(word)[k], '#') == 1)
            && Join("", WordHashtags(word)) == "#" + word
  {
    var pieces := SplitOn(word, '#');
    var r := WordHashtags(word);
    PiecesAreNotHash(pieces);
    forall k | 0 <= k < |pieces|
      ensures Count(r[k], '#') == 1
    {
      HashThenPiece(pieces[k]);
    }
    SplitOnThenJoin(word, '#');
    JoinTagged(pieces);
  }

  lemma PiecesAreNotHash(pieces: seq<string>)
    requires forall k :: 0 <= k < |pieces| ==> '#' !in pieces[k]
    ensures forall k :: 0 <= k < |pieces| ==> pieces[k] != "#"
  {
    forall k | 0 <= k < |pieces|
      ensures pieces[k] != "#"
    {
      assert '#' in "#";
    }
  }

  lemma HashThenPiece(piece: string)
    requires '#' !in piece
    ensures Count("#" + piece, '#') == 1
  {
    assert ("#" + piece)[1..] == piece;
  }

  /** Gluing the tagged pieces is a `#` in front of the pieces joined by `#`. */
  lemma {:induction false} JoinTagged(pieces: seq<string>)
    requires |pieces| > 0
    requires forall k :: 0 <= k < |pieces| ==> pieces[k] != "#"
    ensures Join("", TagFragments(pieces)) == "#" + Join("#", pieces)
  {
    var r := TagFragments(pieces);
    if |pieces| > 1 {
      JoinTagged(pieces[1..]);
      assert r == ["#" + pieces[0]] + TagFragments(pieces[1..]);
      assert r[1..] == TagFragments(pieces[1..]);
    }
  }

  /** A word with at most one `#` is its own hashtag. */
  lemma OneHash(word: string)
    requires Count(word, '#') <= 1
    ensures WordHashtags(word) == [word]
  {
  }

  /** Every entry `WordHashtags` gives for a hashtag word holds exactly one `#`. */
  lemma WordHashtagsOneHash(word: string)
    requires HasHash(word)
    ensures forall k :: 0 <= k < |WordHashtags(word)| ==> Count(WordHashtags(word)[k], '#') == 1
    ensures |WordHashtags(word)| >= 1
  {
    if Count(word, '#') > 1 {
      SeveralHashes(word);
    }
  }

  /** The loop of `parse_hashtags` over the words: (hashtags, non-hashtag words). */
  function PartitionWords(words: seq<string>): (r: (seq<string>, seq<string>))
    ensures CountWhere(words, HasHash) + |r.1| == |words|
    ensures forall k :: 0 <= k < |r.1| ==> NoHash(r.1[k])
  {
    if |words| == 0 then ([], [])
    else
      var rest := PartitionWords(words[1..]);
      if HasHash(words[0]) then (WordHashtags(words[0]) + rest.0, rest.1)
      else (rest.0, [words[0]] + rest.1)
  }

  /**
   * `parse_hashtags`: of the space-separated words, those without `#` in
   * order, and the hashtags of those with `#` in order, each holding
   * exactly one `#`.
   */
  function ParseHashtags(text: string): (r: (seq<string>, seq<string>))
    ensures r.1 == Filter(SplitOn(text, ' '), NoHash)
    ensures r.0 == AllWordHashtags(Filter(SplitOn(text, ' '), HasHash))
    ensures forall k :: 0 <= k < |r.0| ==> Count(r.0[k], '#') == 1
  {
    var words := SplitOn(text, ' ');
    PartitionIsFilter(words);
    PartitionOneHash(words);
    PartitionWords(words)
  }

  /** `count_hashtags`: the number of space-separated words that contain `#`. */
  function CountHashtags(text: string): (n: nat)
    ensures n <= Count(text, ' ') + 1
  {
    CountWhere(SplitOn(text, ' '), HasHash)
  }

  /** The hashtags of each word, in order, one list after another. */
  function AllWordHashtags(words: seq<string>): seq<string>
  {
    if |words| == 0 then [] else WordHashtags(words[0]) + AllWordHashtags(words[1..])
  }

  /**
   * The partition: the non-hashtag words are exactly the words without `#`,
   * in order, and the hashtags are the hashtags of the words with `#`, in
   * order.
   */
  lemma {:induction false} PartitionIsFilter(words: seq<string>)
    ensures PartitionWords(words).1 == Filter(words, NoHash)
    ensures PartitionWords(words).0 == AllWordHashtags(Filter(words, HasHash))
  {
    if |words| > 0 {
      PartitionIsFilter(words[1..]);
      if HasHash(words[0]) {
        assert Filter(words, HasHash) == [words[0]] + Filter(words[1..], HasHash);
        assert ([words[0]] + Filter(words[1..], HasHash))[1..] == Filter(words[1..], HasHash);
      }
    }
  }

  /** Every hashtag `parse_hashtags` returns holds exactly one `#`. */
  lemma {:induction false} PartitionOneHash(words: seq<string>)
    ensures forall k :: 0 <= k < |PartitionWords(words).0| ==> Count(PartitionWords(words).0[k], '#') == 1
  {
    if |words| > 0 {
      PartitionOneHash(words[1..]);
      if HasHash(words[0]) {
        WordHashtagsOneHash(words[0]);
        ConcatOneHash(WordHashtags(words[0]), PartitionWords(words[1..]).0);
      }
    }
  }

  lemma ConcatOneHash(a: seq<string>, b: seq<string>)
    requires forall k :: 0 <= k < |a| ==> Count(a[k], '#') == 1
    requires forall k :: 0 <= k < |b| ==> Count(b[k], '#') == 1
    ensures forall k :: 0 <= k < |a + b| ==> Count((a + b)[k], '#') == 1
  {
  }

  /**
   * Counting: every word is either counted by `count_hashtags` or listed
   * as a non-hashtag word, and there are at least as many hashtags as
   * counted words (a word with several `#` gives several).
   */
  lemma {:induction false} PartitionCounts(words: seq<string>)
    ensures CountWhere(words, HasHash) + |PartitionWords(words).1| == |words|
    ensures CountWhere(words, HasHash) <= |PartitionWords(words).0|
  {
    if |words| > 0 {
      PartitionCounts(words[1..]);
      if HasHash(words[0]) {
        WordHashtagsOneHash(words[0]);
      }
    }
  }

  /** The properties of `parse_hashtags` and `count_hashtags` on one text. */
  lemma HashtagsOfText(text: string)
    ensures var (hashtags, nonHashtags) := ParseHashtags(text);
            var words := SplitOn(text, ' ');
            && nonHashtags == Filter(words, NoHash)
            && hashtags == AllWordHashtags(Filter(words, HasHash))
            && (forall k :: 0 <= k < |hashtags| ==> Count(hashtags[k], '#') == 1)
            && CountHashtags(text) == |Filter(words, HasHash)|
            && CountHashtags(text) + |nonHashtags| == |words|
            && CountHashtags(text) <= |hashtags|
  {
    var words := SplitOn(text, ' ');
    FilterLength(words, HasHash);
    PartitionCounts(words);
  }

  /**
   * Squashed hashtags that start with `#` give a bare "#" first: the piece
   * before the leading `#` is empty, so "#a#b" gives "#", "#a" and "#b".
   */
  lemma LeadingBareHash(word: string)
    requires Count(word, '#') > 1 && word[0] == '#'
    ensures WordHashtags(word)[0] == "#"
  {
    SeveralHashes(word);
    assert SplitOn(word, '#')[0] == "";
    assert "#" + "" == "#";
  }
}
