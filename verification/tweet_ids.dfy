/**
 * The two pieces of the daily scraper that handle tweet IDs: writing a
 * list of IDs to the ID file (`save_tweet_IDs`) and merging the ID lists
 * of the day's source files into one list.
 */
module TweetIds {
  import opened Outcomes
  import opened Seqs
  import opened PyStrings

  /** What `save_tweet_IDs` writes after every ID but the last. */
  const Separator: string := ", \n"

  /** `f"{tweet}"` for every ID, in order. */
  function Rendered(ids: seq<nat>): (r: seq<string>)
    ensures |r| == |ids| && forall k :: 0 <= k < |ids| ==> r[k] == Decimal(ids[k])
  {
    if |ids| == 0 then [] else [Decimal(ids[0])] + Rendered(ids[1..])
  }

  /** The text one call of `save_tweet_IDs` adds to the file. */
  function RenderIds(ids: seq<nat>): string
  {
    Join(Separator, Rendered(ids))
  }

  /** Every part followed by the separator. */
  function Terminated(parts: seq<string>): string
  {
    if |parts| == 0 then "" else parts[0] + Separator + Terminated(parts[1..])
  }

  lemma {:induction false} TerminatedSnoc(parts: seq<string>, p: string)
    ensures Terminated(parts + [p]) == Terminated(parts) + p + Separator
  {
    if |parts| > 0 {
      assert (parts + [p])[1..] == parts[1..] + [p];
      TerminatedSnoc(parts[1..], p);
    } else {
      assert parts + [p] == [p];
    }
  }

  /** A join is every part but the last followed by the separator, then the last part. */
  lemma {:induction false} JoinAsTerminated(parts: seq<string>)
    requires |parts| > 0
    ensures Join(Separator, parts) == Terminated(parts[..|parts| - 1]) + parts[|parts| - 1]
  {
    if |parts| > 1 {
      JoinAsTerminated(parts[1..]);
      assert parts[1..][..|parts| - 2] == parts[..|parts| - 1][1..];
    }
  }

  /**
   * `save_tweet_IDs`: the file is opened in append mode, and each ID is
   * written followed by ", \n" unless it is the last one. The new contents
   * are the old contents followed by the IDs joined with ", \n"; an empty
   * list writes nothing.
   */
  method SaveTweetIds(existing: string, ids: seq<nat>) returns (contents: string)
    ensures contents == existing + RenderIds(ids)
    ensures |ids| == 0 ==> contents == existing
  {
    var parts := Rendered(ids);
    var lastLine := |ids| - 1;
    var written := "";
    var idx := 0;
    while idx < |ids|
      invariant 0 <= idx <= |ids|
      invariant idx < |ids| ==> written == Terminated(parts[..idx])
      invariant idx == |ids| ==> written == RenderIds(ids)
    {
      var line := Decimal(ids[idx]);
      if idx != lastLine {
        WriteMiddle(parts, idx);
        written := written + line + Separator;
      } else {
        WriteLast(parts);
        written := written + line;
      }
      idx := idx + 1;
    }
    contents := existing + written;
  }

  lemma WriteMiddle(parts: seq<string>, idx: nat)
    requires idx < |parts|
    ensures Terminated(parts[..idx]) + parts[idx] + Separator == Terminated(parts[..idx + 1])
  {
    TerminatedSnoc(parts[..idx], parts[idx]);
    assert parts[..idx + 1] == parts[..idx] + [parts[idx]];
  }

  lemma WriteLast(parts: seq<string>)
    requires |parts| > 0
    ensures Terminated(parts[..|parts| - 1]) + parts[|parts| - 1] == Join(Separator, parts)
  {
    JoinAsTerminated(parts);
  }

  /** The digits of an ID hold no character that is not a digit. */
  lemma DigitsLack(s: string, c: char)
    requires All(s, IsDigit) && !IsDigit(c)
    ensures Count(s, c) == 0
  {
    assert c !in s;
  }

  lemma CountConcat(a: string, b: string, c: char)
    ensures Count(a + b, c) == Count(a, c) + Count(b, c)
  {
    if |a| > 0 {
      assert (a + b)[1..] == a[1..] + b;
      CountConcat(a[1..], b, c);
    } else {
      assert a + b == b;
    }
  }

  /** A character that occurs once in the separator and never in a number occurs once between every two IDs. */
  lemma {:induction false} RenderIdsCount(ids: seq<nat>, c: char)
    requires |ids| > 0 && !IsDigit(c) && Count(Separator, c) == 1
    ensures Count(RenderIds(ids), c) == |ids| - 1
  {
    var parts := Rendered(ids);
    DigitsLack(parts[0], c);
    if |ids| > 1 {
      RenderIdsCount(ids[1..], c);
      assert Rendered(ids)[1..] == Rendered(ids[1..]);
      CountConcat(parts[0], Separator, c);
      CountConcat(parts[0] + Separator, RenderIds(ids[1..]), c);
    }
  }

  /** The IDs take one line each: there is one newline fewer than there are IDs. */
  lemma RenderIdsNewlines(ids: seq<nat>)
    requires |ids| > 0
    ensures Count(RenderIds(ids), '\n') == |ids| - 1
  {
    assert Count(Separator, '\n') == 1;
    RenderIdsCount(ids, '\n');
  }

  /**
   * Two saves to the same file do not separate the batches: the last ID of
   * the first batch and the first ID of the second share a line, so the
   * file holds one newline fewer than if both batches were saved at once.
   */
  lemma AppendedBatchesShareALine(a: seq<nat>, b: seq<nat>)
    requires |a| > 0 && |b| > 0
    ensures Count(RenderIds(a) + RenderIds(b), '\n') + 1 == Count(RenderIds(a + b), '\n')
  {
    RenderIdsNewlines(a);
    RenderIdsNewlines(b);
    RenderIdsNewlines(a + b);
    CountConcat(RenderIds(a), RenderIds(b), '\n');
  }

  /**
   * Reading the file back: split on ",", strip every piece and read its
   * digits; None when a stripped piece is empty or not a number, as
   * `int` raises on both.
   */
  function ReadIds(text: string): Option<seq<nat>>
  {
    ReadPieces(SplitOn(text, ','))
  }

  function ReadPieces(pieces: seq<string>): (r: Option<seq<nat>>)
    ensures r.Some? ==> |r.value| == |pieces|
    ensures (exists k :: 0 <= k < |pieces| && Strip(pieces[k]) == "") ==> r.None?
  {
    if |pieces| == 0 then Some([])
    else
      var digits := Strip(pieces[0]);
      if |digits| == 0 || !All(digits, IsDigit) then None
      else match ReadPieces(pieces[1..])
        case None => None
        case Some(rest) => Some([DecimalValue(digits)] + rest)
  }

  /** What the file holds after a save reads back as the saved IDs, as long as there is at least one. */
  lemma RenderThenRead(ids: seq<nat>)
    requires |ids| > 0
    ensures ReadIds(RenderIds(ids)) == Some(ids)
  {
    var parts := Rendered(ids);
    JoinRespaced(parts);
    RespacedHasNoComma(ids);
    JoinThenSplitOn(Respaced(parts), ',');
    ReadRespaced(ids);
  }

  /** " \n" in front of every part. */
  function Spaced(parts: seq<string>): (r: seq<string>)
    ensures |r| == |parts|
  {
    if |parts| == 0 then [] else [" \n" + parts[0]] + Spaced(parts[1..])
  }

  /** The pieces between the commas of the joined parts: the first part, then " \n" and each later part. */
  function Respaced(parts: seq<string>): seq<string>
    requires |parts| > 0
  {
    [parts[0]] + Spaced(parts[1..])
  }

  /** Joining with ", \n" is joining the respaced parts with ",". */
  lemma {:induction false} JoinRespaced(parts: seq<string>)
    requires |parts| > 0
    ensures Join(Separator, parts) == Join([','], Respaced(parts))
  {
    if |parts| > 1 {
      JoinRespaced(parts[1..]);
      var rest := Spaced(parts[2..]);
      assert Spaced(parts[1..]) == [" \n" + parts[1]] + rest;
      assert Respaced(parts[1..]) == [parts[1]] + rest;
      JoinPrefixFirst([','], " \n", [parts[1]] + rest);
      assert ([" \n" + ([parts[1]] + rest)[0]] + ([parts[1]] + rest)[1..]) == Spaced(parts[1..]);
      JoinCons([','], parts[0], Spaced(parts[1..]));
    }
  }

  lemma RespacedHasNoComma(ids: seq<nat>)
    requires |ids| > 0
    ensures forall k :: 0 <= k < |Respaced(Rendered(ids))| ==> ',' !in Respaced(Rendered(ids))[k]
  {
    var parts := Rendered(ids);
    SpacedHasNoComma(parts[1..]);
  }

  lemma {:induction false} SpacedHasNoComma(parts: seq<string>)
    requires forall k :: 0 <= k < |parts| ==> All(parts[k], IsDigit)
    ensures forall k :: 0 <= k < |Spaced(parts)| ==> ',' !in Spaced(parts)[k]
  {
    if |parts| > 0 {
      SpacedHasNoComma(parts[1..]);
      assert forall i :: 0 <= i < |" \n" + parts[0]| ==> (" \n" + parts[0])[i] != ',';
    }
  }

  lemma ReadRespaced(ids: seq<nat>)
    requires |ids| > 0
    ensures ReadPieces(Respaced(Rendered(ids))) == Some(ids)
  {
    var d := Decimal(ids[0]);
    var tail := Rendered(ids[1..]);
    assert Rendered(ids) == [d] + tail;
    assert Respaced([d] + tail) == [d] + Spaced(tail) by {
      assert ([d] + tail)[1..] == tail;
    }
    StripDigits(d);
    DecimalRoundTrip(ids[0]);
    ReadSpaced(ids[1..]);
    ReadCons(d, Spaced(tail), ids[0], ids[1..]);
    HeadTail(ids);
  }

  lemma {:induction false} ReadSpaced(ids: seq<nat>)
    ensures ReadPieces(Spaced(Rendered(ids))) == Some(ids)
  {
    if |ids| > 0 {
      var d := Decimal(ids[0]);
      assert Rendered(ids) == [d] + Rendered(ids[1..]);
      assert Spaced(Rendered(ids)) == [" \n" + d] + Spaced(Rendered(ids[1..]));
      StripSpacedDigits(d);
      DecimalRoundTrip(ids[0]);
      ReadSpaced(ids[1..]);
      ReadCons(" \n" + d, Spaced(Rendered(ids[1..])), ids[0], ids[1..]);
      HeadTail(ids);
    }
  }

  /** One piece that strips to the digits of `id`, then pieces that read as `ids`. */
  lemma ReadCons(piece: string, rest: seq<string>, id: nat, ids: seq<nat>)
    requires |Strip(piece)| > 0 && All(Strip(piece), IsDigit) && DecimalValue(Strip(piece)) == id
    requires ReadPieces(rest) == Some(ids)
    ensures ReadPieces([piece] + rest) == Some([id] + ids)
  {
    assert ([piece] + rest)[1..] == rest;
  }

  lemma StripDigits(d: string)
    requires |d| > 0 && All(d, IsDigit)
    ensures Strip(d) == d
  {
    assert IsDigit(d[0]) && IsDigit(d[|d| - 1]);
    TrimStartKeeps(d);
    TrimEndKeeps(d);
  }

  lemma StripSpacedDigits(d: string)
    requires |d| > 0 && All(d, IsDigit)
    ensures Strip(" \n" + d) == d
  {
    assert " \n" + d == [' '] + (['\n'] + d);
    TrimStartSkips(' ', ['\n'] + d);
    TrimStartSkips('\n', d);
    StripDigits(d);
  }

  /**
   * The ID file has a fixed name and is opened for appending, but nothing
   * is written after the last ID. A save onto a file that already holds
   * IDs therefore glues the last old ID to the first new one: the file no
   * longer reads back as the old IDs followed by the new ones, and holds
   * one ID fewer than were saved.
   */
  lemma AppendedBatchesGlue(a: seq<nat>, b: seq<nat>)
    requires |a| > 0 && |b| > 0
    ensures ReadIds(RenderIds(a) + RenderIds(b)) != Some(a + b)
    ensures ReadIds(RenderIds(a) + RenderIds(b)).Some? ==>
              |ReadIds(RenderIds(a) + RenderIds(b)).value| == |a| + |b| - 1
  {
    assert Count(Separator, ',') == 1;
    RenderIdsCount(a, ',');
    RenderIdsCount(b, ',');
    CountConcat(RenderIds(a), RenderIds(b), ',');
  }

  /**
   * The save with the separator the append needs: when the file is not
   * empty and there are IDs to add, ", \n" goes between the old contents
   * and the new IDs.
   */
  function AppendIds(existing: string, ids: seq<nat>): (contents: string)
    ensures |ids| == 0 ==> contents == existing
    ensures |existing| == 0 ==> contents == RenderIds(ids)
  {
    if |existing| > 0 && |ids| > 0 then existing + Separator + RenderIds(ids)
    else existing + RenderIds(ids)
  }

  /** Two saves in a row with the separator read back as one save of both batches. */
  lemma AppendIdsReadBack(a: seq<nat>, b: seq<nat>)
    requires |a| > 0
    ensures ReadIds(AppendIds(RenderIds(a), b)) == Some(a + b)
  {
    if |b| == 0 {
      assert a + b == a;
      RenderThenRead(a);
    } else {
      RenderIdsNonEmpty(a);
      RenderedConcat(a, b);
      JoinConcat(Separator, Rendered(a), Rendered(b));
      RenderThenRead(a + b);
    }
  }

  lemma RenderIdsNonEmpty(ids: seq<nat>)
    requires |ids| > 0
    ensures |RenderIds(ids)| > 0
  {
    var parts := Rendered(ids);
    if |parts| > 1 {
      assert RenderIds(ids) == parts[0] + Separator + Join(Separator, parts[1..]);
    }
  }

  lemma RenderedConcat(a: seq<nat>, b: seq<nat>)
    ensures Rendered(a + b) == Rendered(a) + Rendered(b)
  {
    var r, ra, rb := Rendered(a + b), Rendered(a), Rendered(b);
    assert forall k :: 0 <= k < |r| ==> r[k] == (ra + rb)[k] by {
      forall k | 0 <= k < |r|
        ensures r[k] == (ra + rb)[k]
      {
        if k < |a| {
          assert (a + b)[k] == a[k];
        } else {
          assert (a + b)[k] == b[k - |a|];
        }
      }
    }
  }

  /** The error the merge raises: `tweet_IDs_list[0]` on an empty list. */
  datatype MergeError = NoSourceFiles

  /**
   * The merge of the day's ID lists: with more than one list, every ID of
   * every list in order, appended one at a time; with exactly one, that
   * list; with none, the index `[0]` raises.
   */
  method MergeIds(lists: seq<seq<nat>>) returns (r: Result<seq<nat>, MergeError>)
    ensures r.Err? <==> |lists| == 0
    ensures r.Ok? ==> r.value == Flatten(lists) && |r.value| == TotalLength(lists)
  {
    if |lists| > 1 {
      var merged: seq<nat> := [];
      var i := 0;
      while i < |lists|
        invariant 0 <= i <= |lists|
        invariant merged == Flatten(lists[..i])
      {
        var lst := lists[i];
        var j := 0;
        while j < |lst|
          invariant 0 <= j <= |lst|
          invariant merged == Flatten(lists[..i]) + lst[..j]
        {
          merged := merged + [lst[j]];
          j := j + 1;
        }
        assert lists[..i + 1][..i] == lists[..i];
        i := i + 1;
      }
      assert lists[..|lists|] == lists;
      FlattenLength(lists);
      r := Ok(merged);
    } else if |lists| == 1 {
      assert Flatten(lists) == Flatten(lists[..0]) + lists[0];
      FlattenLength(lists);
      r := Ok(lists[0]);
    } else {
      r := Err(NoSourceFiles);
    }
  }
}
