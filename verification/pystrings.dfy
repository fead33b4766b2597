/**
 * The Python `str` operations the preprocessing script is built from,
 * on `string` (a sequence of Unicode scalar values): `str.isspace`,
 * `str.split()` on runs of whitespace, `str.split(sep)` on a one-character
 * separator, `sep.join`, `str.strip`, `str.lower` on ASCII text, the
 * substring test `sub in s`, the character filter loop and `str(n)` for a
 * natural number.
 */
module PyStrings {
  import opened Seqs

  /** Every character of `s` satisfies `p`. */
  predicate All(s: string, p: char -> bool)
  {
    forall i :: 0 <= i < |s| ==> p(s[i])
  }

  /**
   * Python's `str.isspace` for one character: the characters `str.split()`
   * with no argument and `str.strip()` treat as whitespace.
   */
  predicate IsSpace(c: char)
  {
    var n := c as int;
    || n == 0x20 || 0x09 <= n <= 0x0D || 0x1C <= n <= 0x1F
    || n == 0x85 || n == 0xA0 || n == 0x1680 || 0x2000 <= n <= 0x200A
    || n == 0x2028 || n == 0x2029 || n == 0x202F || n == 0x205F || n == 0x3000
  }

  predicate NotSpace(c: char) { !IsSpace(c) }

  /** `c.encode('ascii')` succeeds. */
  predicate IsAscii(c: char) { c as int < 128 }

  predicate IsDigit(c: char) { '0' <= c <= '9' }

  predicate IsUpper(c: char) { 'A' <= c <= 'Z' }

  /** The regular-expression class `[a-zA-Z0-9]`. */
  predicate IsAlnum(c: char) { 'a' <= c <= 'z' || 'A' <= c <= 'Z' || IsDigit(c) }

  /** The number of occurrences of `c` in `s`. */
  function Count(s: string, c: char): (n: nat)
    ensures n <= |s|
    ensures n == 0 <==> c !in s
  {
    if |s| == 0 then 0 else (if s[0] == c then 1 else 0) + Count(s[1..], c)
  }

  /**
   * The loop `for char in s: if p(char): out = out + char`: the characters
   * of `s` that satisfy `p`, in order.
   */
  function Keep(s: string, p: char -> bool): (r: string)
    ensures |r| <= |s|
    ensures All(r, p)
    ensures All(s, p) ==> r == s
  {
    if |s| == 0 then ""
    else (if p(s[0]) then [s[0]] else "") + Keep(s[1..], p)
  }

  /** `Keep` works character by character: it distributes over concatenation. */
  lemma {:induction false} KeepConcat(a: string, b: string, p: char -> bool)
    ensures Keep(a + b, p) == Keep(a, p) + Keep(b, p)
  {
    if |a| > 0 {
      assert (a + b)[1..] == a[1..] + b;
      KeepConcat(a[1..], b, p);
    } else {
      assert a + b == b;
    }
  }

  /** On one character, `Keep` keeps it exactly when it has the property. */
  lemma KeepOne(c: char, p: char -> bool)
    ensures Keep([c], p) == if p(c) then [c] else []
  {
    assert [c][1..] == [];
  }

  /** `Keep` drops only characters that fail `p`: the survivors are exactly those of `s` that satisfy it. */
  lemma {:induction false} KeepMembers(s: string, p: char -> bool)
    ensures forall i :: 0 <= i < |Keep(s, p)| ==> Keep(s, p)[i] in s
    ensures forall i :: 0 <= i < |s| && p(s[i]) ==> s[i] in Keep(s, p)
  {
    if |s| > 0 {
      KeepMembers(s[1..], p);
    }
  }

  /** A character property true of every character of `s` survives `Keep`. */
  lemma KeepAll(s: string, p: char -> bool, q: char -> bool)
    requires All(s, q)
    ensures All(Keep(s, p), q)
  {
    var r := Keep(s, p);
    KeepMembers(s, p);
    forall i | 0 <= i < |r|
      ensures q(r[i])
    {
      assert r[i] in s;
    }
  }

  /** `sep.join(parts)`. */
  function Join(sep: string, parts: seq<string>): string
  {
    if |parts| == 0 then ""
    else if |parts| == 1 then parts[0]
    else parts[0] + sep + Join(sep, parts[1..])
  }

  /** Every character of `sep.join(parts)` comes from `sep` or from a part. */
  lemma {:induction false} JoinAll(sep: string, parts: seq<string>, p: char -> bool)
    requires All(sep, p)
    requires forall k :: 0 <= k < |parts| ==> All(parts[k], p)
    ensures All(Join(sep, parts), p)
  {
    if |parts| > 1 {
      JoinAll(sep, parts[1..], p);
      var rest := Join(sep, parts[1..]);
      assert Join(sep, parts) == parts[0] + sep + rest;
      forall i | 0 <= i < |parts[0] + sep + rest|
        ensures p((parts[0] + sep + rest)[i])
      {
        if i < |parts[0]| {
        } else if i < |parts[0]| + |sep| {
          assert (parts[0] + sep + rest)[i] == sep[i - |parts[0]|];
        } else {
          assert (parts[0] + sep + rest)[i] == rest[i - |parts[0]| - |sep|];
        }
      }
    }
  }

  /**
   * `s.split(sep)` for a one-character separator: the pieces between the
   * occurrences of `sep`, empty pieces included, so there is always one
   * more piece than there are separators.
   */
  function SplitOn(s: string, sep: char): (r: seq<string>)
    ensures |r| == Count(s, sep) + 1
    ensures forall k :: 0 <= k < |r| ==> sep !in r[k]
    ensures |r[0]| <= |s| && r[0] == s[..|r[0]|]
  {
    if |s| == 0 then [""]
    else
      var rest := SplitOn(s[1..], sep);
      if s[0] == sep then [""] + rest
      else [[s[0]] + rest[0]] + rest[1..]
  }

  /** Joining the pieces with the separator gives back the string. */
  lemma {:induction false} SplitOnThenJoin(s: string, sep: char)
    ensures Join([sep], SplitOn(s, sep)) == s
  {
    if |s| > 0 {
      SplitOnThenJoin(s[1..], sep);
      SplitOnThenJoinStep(s, sep);
    }
  }

  lemma SplitOnThenJoinStep(s: string, sep: char)
    requires |s| > 0 && Join([sep], SplitOn(s[1..], sep)) == s[1..]
    ensures Join([sep], SplitOn(s, sep)) == s
  {
    if s[0] == sep {
      SplitOnThenJoinAtSeparator(s, sep);
    } else {
      SplitOnThenJoinInPiece(s, sep);
    }
  }

  lemma SplitOnThenJoinAtSeparator(s: string, sep: char)
    requires |s| > 0 && s[0] == sep && Join([sep], SplitOn(s[1..], sep)) == s[1..]
    ensures Join([sep], SplitOn(s, sep)) == s
  {
    JoinCons([sep], "", SplitOn(s[1..], sep));
    SeparatorFirst(s, sep);
  }

  lemma SeparatorFirst(s: string, sep: char)
    requires |s| > 0 && s[0] == sep
    ensures "" + [sep] + s[1..] == s
  {
  }

  lemma SplitOnThenJoinInPiece(s: string, sep: char)
    requires |s| > 0 && s[0] != sep && Join([sep], SplitOn(s[1..], sep)) == s[1..]
    ensures Join([sep], SplitOn(s, sep)) == s
  {
    var rest := SplitOn(s[1..], sep);
    JoinPrefixFirst([sep], [s[0]], rest);
    assert [s[0]] + s[1..] == s;
  }

  /** Putting a part in front adds it and one separator. */
  lemma JoinCons(sep: string, a: string, parts: seq<string>)
    requires |parts| > 0
    ensures Join(sep, [a] + parts) == a + sep + Join(sep, parts)
  {
    assert ([a] + parts)[1..] == parts;
  }

  /** Extending the first part extends the join by the same characters. */
  lemma JoinPrefixFirst(sep: string, pre: string, parts: seq<string>)
    requires |parts| > 0
    ensures Join(sep, [pre + parts[0]] + parts[1..]) == pre + Join(sep, parts)
  {
    var q := [pre + parts[0]] + parts[1..];
    if |parts| > 1 {
      assert q[1..] == parts[1..];
    }
  }

  /** Joining two non-empty lists one after the other puts one separator between their joins. */
  lemma {:induction false} JoinConcat(sep: string, p: seq<string>, q: seq<string>)
    requires |p| > 0 && |q| > 0
    ensures Join(sep, p + q) == Join(sep, p) + sep + Join(sep, q)
  {
    assert p + q == [p[0]] + (p[1..] + q);
    if |p| == 1 {
      assert p[1..] + q == q;
      JoinCons(sep, p[0], q);
    } else {
      JoinConcat(sep, p[1..], q);
      JoinCons(sep, p[0], p[1..] + q);
    }
  }

  lemma {:induction false} SplitOnNoSeparator(a: string, sep: char)
    requires sep !in a
    ensures SplitOn(a, sep) == [a]
  {
    if |a| > 0 {
      SplitOnNoSeparator(a[1..], sep);
      assert [a[0]] + a[1..] == a;
    }
  }

  lemma {:induction false} SplitOnCons(a: string, sep: char, b: string)
    requires sep !in a
    ensures SplitOn(a + [sep] + b, sep) == [a] + SplitOn(b, sep)
  {
    var s := a + [sep] + b;
    if |a| == 0 {
      assert s[1..] == b;
    } else {
      assert s[1..] == a[1..] + [sep] + b;
      SplitOnCons(a[1..], sep, b);
      assert [a[0]] + a[1..] == a;
    }
  }

  /**
   * Splitting a join gives back the parts, as long as no part contains the
   * separator: `SplitOn` is the inverse of `Join` on such lists.
   */
  lemma {:induction false} JoinThenSplitOn(parts: seq<string>, sep: char)
    requires |parts| >= 1
    requires forall k :: 0 <= k < |parts| ==> sep !in parts[k]
    ensures SplitOn(Join([sep], parts), sep) == parts
  {
    if |parts| == 1 {
      SplitOnNoSeparator(parts[0], sep);
    } else {
      JoinThenSplitOn(parts[1..], sep);
      SplitOnCons(parts[0], sep, Join([sep], parts[1..]));
      assert [parts[0]] + parts[1..] == parts;
    }
  }

  /** A character property true of all of `s` is true of every piece. */
  lemma {:induction false} SplitOnAll(s: string, sep: char, p: char -> bool)
    requires All(s, p)
    ensures forall k :: 0 <= k < |SplitOn(s, sep)| ==> All(SplitOn(s, sep)[k], p)
  {
    if |s| > 0 {
      SplitOnAll(s[1..], sep, p);
    }
  }

  /** The length of the longest prefix of `s` that holds no whitespace. */
  function WordLength(s: string): (k: nat)
    ensures k <= |s|
    ensures forall i :: 0 <= i < k ==> !IsSpace(s[i])
    ensures k < |s| ==> IsSpace(s[k])
    ensures |s| > 0 && !IsSpace(s[0]) ==> k > 0
  {
    if |s| == 0 || IsSpace(s[0]) then 0 else 1 + WordLength(s[1..])
  }

  /** The number of whitespace characters `s` starts with. */
  function LeadingSpaces(s: string): (k: nat)
    ensures k <= |s|
    ensures forall i :: 0 <= i < k ==> IsSpace(s[i])
    ensures k < |s| ==> !IsSpace(s[k])
  {
    if |s| == 0 || !IsSpace(s[0]) then 0 else 1 + LeadingSpaces(s[1..])
  }

  /** The number of whitespace characters `s` ends with. */
  function TrailingSpaces(s: string): (k: nat)
    ensures k <= |s|
    ensures forall i :: |s| - k <= i < |s| ==> IsSpace(s[i])
    ensures k < |s| ==> !IsSpace(s[|s| - k - 1])
  {
    if |s| == 0 || !IsSpace(s[|s| - 1]) then 0 else 1 + TrailingSpaces(s[..|s| - 1])
  }

  /** `s.lstrip()`: a suffix of `s` that does not start with whitespace. */
  function TrimStart(s: string): (r: string)
    ensures |r| <= |s| && r == s[|s| - |r|..]
    ensures |r| > 0 ==> !IsSpace(r[0])
  {
    s[LeadingSpaces(s)..]
  }

  /** `lstrip` drops nothing but whitespace. */
  lemma TrimStartDropsSpace(s: string)
    ensures All(s[..|s| - |TrimStart(s)|], IsSpace)
  {
    var k := LeadingSpaces(s);
    assert |s| - |TrimStart(s)| == k;
    assert forall i :: 0 <= i < k ==> s[..k][i] == s[i];
  }

  /** `lstrip` keeps a string that starts with a non-space. */
  lemma TrimStartKeeps(s: string)
    requires |s| > 0 && !IsSpace(s[0])
    ensures TrimStart(s) == s
  {
  }

  /** `lstrip` drops a leading space and goes on. */
  lemma TrimStartSkips(c: char, s: string)
    requires IsSpace(c)
    ensures TrimStart([c] + s) == TrimStart(s)
  {
    var t := [c] + s;
    assert t[1..] == s;
    assert LeadingSpaces(t) == 1 + LeadingSpaces(s);
    assert t[1 + LeadingSpaces(s)..] == s[LeadingSpaces(s)..];
  }

  /** `s.rstrip()`: a prefix of `s` that does not end with whitespace. */
  function TrimEnd(s: string): (r: string)
    ensures |r| <= |s| && r == s[..|r|]
    ensures |r| > 0 ==> !IsSpace(r[|r| - 1])
  {
    s[..|s| - TrailingSpaces(s)]
  }

  /** `rstrip` drops nothing but whitespace. */
  lemma TrimEndDropsSpace(s: string)
    ensures All(s[|TrimEnd(s)|..], IsSpace)
  {
    var k := TrailingSpaces(s);
    assert |TrimEnd(s)| == |s| - k;
    var tail := s[|s| - k..];
    assert forall i :: 0 <= i < k ==> tail[i] == s[|s| - k + i];
  }

  /** `rstrip` keeps a string that ends with a non-space. */
  lemma TrimEndKeeps(s: string)
    requires |s| > 0 && !IsSpace(s[|s| - 1])
    ensures TrimEnd(s) == s
  {
  }

  /** `s.strip()`: the result neither starts nor ends with whitespace. */
  function Strip(s: string): (r: string)
    ensures |r| <= |s|
    ensures |r| > 0 ==> !IsSpace(r[0]) && !IsSpace(r[|r| - 1])
  {
    TrimEnd(TrimStart(s))
  }

  /**
   * What `strip` cuts away on either side is whitespace, and what it keeps
   * is the slice of `s` in between.
   */
  lemma StripIsSlice(s: string) returns (i: nat)
    ensures i + |Strip(s)| <= |s| && s[i..i + |Strip(s)|] == Strip(s)
    ensures All(s[..i], IsSpace) && All(s[i + |Strip(s)|..], IsSpace)
  {
    var t := TrimStart(s);
    var r := TrimEnd(t);
    TrimStartDropsSpace(s);
    TrimEndDropsSpace(t);
    i := |s| - |t|;
    assert t == s[i..];
    assert r == t[..|r|];
    assert s[i + |r|..] == t[|r|..];
  }

  /** `s.strip() == ''` holds exactly when `s` is all whitespace. */
  lemma StripEmpty(s: string)
    ensures Strip(s) == "" <==> All(s, IsSpace)
  {
    var i := StripIsSlice(s);
    if Strip(s) == "" {
      forall j | 0 <= j < |s|
        ensures IsSpace(s[j])
      {
        if j < i {
          assert s[j] == s[..i][j];
        } else {
          assert s[j] == s[i..][j - i];
        }
      }
    }
  }

  /**
   * `str.split()` with no argument: the maximal runs of non-whitespace
   * characters, in order; whitespace of every kind separates them and
   * never yields an empty word.
   */
  function SplitWhitespace(s: string): (r: seq<string>)
    ensures forall k :: 0 <= k < |r| ==> |r[k]| > 0 && All(r[k], NotSpace)
    decreases |s|
  {
    var t := TrimStart(s);
    if |t| == 0 then []
    else
      var k := WordLength(t);
      var w := t[..k];
      assert |w| > 0 && All(w, NotSpace);
      var rest := SplitWhitespace(t[k..]);
      PrependWord(w, rest);
      [w] + rest
  }

  lemma PrependWord(w: string, rest: seq<string>)
    requires |w| > 0 && All(w, NotSpace)
    requires forall k :: 0 <= k < |rest| ==> |rest[k]| > 0 && All(rest[k], NotSpace)
    ensures forall k :: 0 <= k < |[w] + rest| ==> |([w] + rest)[k]| > 0 && All(([w] + rest)[k], NotSpace)
  {
  }

  /** A character property true of all of `s` is true of every word. */
  lemma {:induction false} SplitWhitespaceAll(s: string, p: char -> bool)
    requires All(s, p)
    ensures forall k :: 0 <= k < |SplitWhitespace(s)| ==> All(SplitWhitespace(s)[k], p)
    decreases |s|
  {
    var t := TrimStart(s);
    if |t| > 0 {
      var k := WordLength(t);
      SliceAll(s, |s| - |t|, |s|, p);
      SliceAll(t, 0, k, p);
      SliceAll(t, k, |t|, p);
      SplitWhitespaceAll(t[k..], p);
      PrependAll(t[..k], SplitWhitespace(t[k..]), p);
    }
  }

  /** A character property true of all of `s` is true of every slice. */
  lemma SliceAll(s: string, i: nat, j: nat, p: char -> bool)
    requires i <= j <= |s| && All(s, p)
    ensures All(s[i..j], p)
  {
    assert forall m :: 0 <= m < j - i ==> s[i..j][m] == s[i + m];
  }

  lemma PrependAll(w: string, rest: seq<string>, p: char -> bool)
    requires All(w, p)
    requires forall k :: 0 <= k < |rest| ==> All(rest[k], p)
    ensures forall k :: 0 <= k < |[w] + rest| ==> All(([w] + rest)[k], p)
  {
  }

  /** A leading whitespace character of any kind, tab and newline included, separates nothing from the rest. */
  lemma SplitWhitespaceSkips(c: char, x: string)
    requires IsSpace(c)
    ensures SplitWhitespace([c] + x) == SplitWhitespace(x)
  {
    TrimStartSkips(c, x);
  }

  /**
   * `split()` loses no non-whitespace character: gluing its words together
   * gives the text with all whitespace deleted.
   */
  lemma {:induction false} SplitWhitespaceKeepsText(s: string)
    ensures Join("", SplitWhitespace(s)) == Keep(s, NotSpace)
    decreases |s|
  {
    var t := TrimStart(s);
    KeepAfterLead(s);
    if |t| > 0 {
      var k := WordLength(t);
      KeepWord(t);
      SplitWhitespaceKeepsText(t[k..]);
      JoinGlue(t[..k], SplitWhitespace(t[k..]));
    }
  }

  /** The whitespace `lstrip` drops holds nothing `Keep(_, NotSpace)` keeps. */
  lemma KeepAfterLead(s: string)
    ensures Keep(s, NotSpace) == Keep(TrimStart(s), NotSpace)
  {
    var t := TrimStart(s);
    var lead := s[..|s| - |t|];
    TrimStartDropsSpace(s);
    assert s == lead + t;
    KeepConcat(lead, t, NotSpace);
    KeepNone(lead, NotSpace);
  }

  /** The first word of a text that starts with a non-space is kept whole. */
  lemma KeepWord(t: string)
    ensures Keep(t, NotSpace) == t[..WordLength(t)] + Keep(t[WordLength(t)..], NotSpace)
  {
    var k := WordLength(t);
    assert t == t[..k] + t[k..];
    KeepConcat(t[..k], t[k..], NotSpace);
    assert All(t[..k], NotSpace);
  }

  /** Gluing a word in front of glued words. */
  lemma JoinGlue(w: string, rest: seq<string>)
    ensures Join("", [w] + rest) == w + Join("", rest)
  {
    if |rest| > 0 {
      JoinCons("", w, rest);
    } else {
      assert [w] + rest == [w];
    }
  }

  /** When no character of `s` satisfies `p`, nothing is kept. */
  lemma {:induction false} KeepNone(s: string, p: char -> bool)
    requires forall i :: 0 <= i < |s| ==> !p(s[i])
    ensures Keep(s, p) == ""
  {
    if |s| > 0 {
      KeepNone(s[1..], p);
    }
  }

  /** A word with no whitespace splits into itself, followed by what comes after a space. */
  lemma SplitWhitespaceWord(w: string, x: string)
    requires |w| > 0 && All(w, NotSpace)
    requires |x| == 0 || IsSpace(x[0])
    ensures SplitWhitespace(w + x) == [w] + SplitWhitespace(x)
  {
    var s := w + x;
    assert TrimStart(s) == s;
    WordLengthOfWord(w, x);
    assert s[..|w|] == w;
    assert s[|w|..] == x;
    if |x| == 0 {
      assert SplitWhitespace(x) == [];
    } else {
      assert TrimStart(x) == TrimStart(x[1..]);
    }
  }

  /**
   * Splitting `" ".join(words)` on whitespace gives back the words, as long
   * as every word is non-empty and holds no whitespace.
   */
  lemma {:induction false} JoinThenSplitWhitespace(words: seq<string>)
    requires forall k :: 0 <= k < |words| ==> |words[k]| > 0 && All(words[k], NotSpace)
    ensures SplitWhitespace(Join(" ", words)) == words
  {
    if |words| == 1 {
      SplitWhitespaceSingle(words[0]);
    } else if |words| > 1 {
      JoinThenSplitWhitespace(words[1..]);
      JoinThenSplitWhitespaceStep(words);
      HeadTail(words);
    }
  }

  lemma SplitWhitespaceSingle(w: string)
    requires |w| > 0 && All(w, NotSpace)
    ensures SplitWhitespace(w) == [w]
  {
    SplitWhitespaceWord(w, "");
    assert w + "" == w;
  }

  lemma JoinThenSplitWhitespaceStep(words: seq<string>)
    requires |words| > 1 && |words[0]| > 0 && All(words[0], NotSpace)
    ensures SplitWhitespace(Join(" ", words)) == [words[0]] + SplitWhitespace(Join(" ", words[1..]))
  {
    assert Join(" ", words) == words[0] + " " + Join(" ", words[1..]);
    SplitWhitespaceSpaced(words[0], Join(" ", words[1..]));
  }

  lemma SplitWhitespaceSpaced(w: string, rest: string)
    requires |w| > 0 && All(w, NotSpace)
    ensures SplitWhitespace(w + " " + rest) == [w] + SplitWhitespace(rest)
  {
    assert w + " " + rest == w + (" " + rest);
    SplitWhitespaceWord(w, " " + rest);
    SplitWhitespaceSkips(' ', rest);
  }

  lemma {:induction false} WordLengthOfWord(w: string, x: string)
    requires All(w, NotSpace)
    requires |x| == 0 || IsSpace(x[0])
    ensures WordLength(w + x) == |w|
  {
    if |w| > 0 {
      assert (w + x)[1..] == w[1..] + x;
      WordLengthOfWord(w[1..], x);
    } else {
      assert w + x == x;
    }
  }

  /** Python's `str.lower` on one ASCII character. */
  function LowerChar(c: char): char
  {
    if IsUpper(c) then (c as int + 32) as char else c
  }

  /**
   * `s.lower()`. Only ASCII upper-case letters change; the script applies it
   * to text that is already pure ASCII, where this agrees with Python.
   */
  function Lower(s: string): (r: string)
    ensures |r| == |s|
    ensures forall i :: 0 <= i < |s| ==> r[i] == LowerChar(s[i])
    ensures forall i :: 0 <= i < |r| ==> !IsUpper(r[i])
  {
    if |s| == 0 then "" else [LowerChar(s[0])] + Lower(s[1..])
  }

  /** Lower-casing text without upper-case letters changes nothing. */
  lemma LowerIdentity(s: string)
    requires forall i :: 0 <= i < |s| ==> !IsUpper(s[i])
    ensures Lower(s) == s
  {
  }

  /** Python's `sub in s` for strings: `sub` occurs at some position of `s`. */
  predicate Contains(s: string, sub: string)
    decreases |s|
  {
    |sub| <= |s| && (s[..|sub|] == sub || Contains(s[1..], sub))
  }

  function DigitChar(d: nat): (c: char)
    requires d < 10
    ensures IsDigit(c)
  {
    ('0' as int + d) as char
  }

  /** `str(n)` for a natural number: its decimal digits, no leading zero. */
  function Decimal(n: nat): (r: string)
    ensures |r| >= 1 && All(r, IsDigit)
    ensures |r| == 1 <==> n < 10
    ensures |r| > 1 ==> r[0] != '0'
  {
    if n < 10 then [DigitChar(n)] else Decimal(n / 10) + [DigitChar(n % 10)]
  }

  /** Python's `int(s)` on a string of decimal digits. */
  function DecimalValue(s: string): nat
    requires All(s, IsDigit)
  {
    if |s| == 0 then 0
    else DecimalValue(s[..|s| - 1]) * 10 + (s[|s| - 1] as int - '0' as int)
  }

  /** Reading back the decimal rendering of `n` gives `n`. */
  lemma {:induction false} DecimalRoundTrip(n: nat)
    ensures DecimalValue(Decimal(n)) == n
  {
    if n >= 10 {
      DecimalRoundTrip(n / 10);
      var r := Decimal(n);
      assert r[..|r| - 1] == Decimal(n / 10);
    }
  }
}
