/** Rust's `str::lines`, on the bytes of the text. The text is split after
    every line feed; each piece then loses its line feed and, when one stands
    right before it, one carriage return. A final piece without a line feed
    is kept as it is, carriage return included, and an empty final piece is
    not a line. Line feed and carriage return are ASCII, so on valid UTF-8
    this byte-level split is exactly the split of the `&str`. */
module TextLines {
  import opened Bytes
  import Utf8

  /** Index of the first line feed in `s`, if any. */
  function FirstLineFeed(s: seq<Byte>): (r: Option<nat>)
    ensures r.None? ==> NoLineFeed(s)
    ensures r.Some? ==> r.value < |s| && s[r.value] == LF && NoLineFeed(s[..r.value])
  {
    if s == [] then None
    else if s[0] == LF then Some(0)
    else match FirstLineFeed(s[1..])
      case None => None
      case Some(j) =>
        assert s[..j + 1] == [s[0]] + s[1..][..j];
        Some(j + 1)
  }

  /** Drops one trailing carriage return. */
  function StripCr(line: seq<Byte>): seq<Byte>
  {
    if |line| > 0 && line[|line| - 1] == CR then line[..|line| - 1] else line
  }

  /** `str::lines`: the empty text has no lines, any other has at least
      one, and never more lines than bytes. */
  function Lines(s: seq<Byte>): (r: seq<seq<Byte>>)
    ensures r == [] <==> s == []
    ensures |r| <= |s|
    decreases |s|
  {
    if s == [] then []
    else match FirstLineFeed(s)
      case None => [s]
      case Some(i) => [StripCr(s[..i])] + Lines(s[i + 1..])
  }

  /** Number of line feeds in `s`. */
  function CountLineFeeds(s: seq<Byte>): nat
  {
    if s == [] then 0 else (if s[0] == LF then 1 else 0) + CountLineFeeds(s[1..])
  }

  lemma {:induction false} CountLineFeedsAppend(a: seq<Byte>, b: seq<Byte>)
    ensures CountLineFeeds(a + b) == CountLineFeeds(a) + CountLineFeeds(b)
    decreases |a|
  {
    if a == [] {
      assert a + b == b;
    } else {
      assert (a + b)[1..] == a[1..] + b;
      CountLineFeedsAppend(a[1..], b);
    }
  }

  lemma {:induction false} NoLineFeedCount(s: seq<Byte>)
    requires NoLineFeed(s)
    ensures CountLineFeeds(s) == 0
    decreases |s|
  {
    if s != [] {
      NoLineFeedCount(s[1..]);
    }
  }

  /** The first line feed after a line-feed-free prefix is the one that
      follows the prefix. */
  lemma {:induction false} FirstLineFeedAfter(a: seq<Byte>, b: seq<Byte>)
    requires NoLineFeed(a)
    ensures FirstLineFeed(a + [LF] + b) == Some(|a|)
    decreases |a|
  {
    if a != [] {
      assert (a + [LF] + b)[1..] == a[1..] + [LF] + b;
      FirstLineFeedAfter(a[1..], b);
    }
  }

  /** Splitting a line-feed-free piece followed by a line feed. */
  lemma LinesCons(a: seq<Byte>, b: seq<Byte>)
    requires NoLineFeed(a)
    ensures Lines(a + [LF] + b) == [StripCr(a)] + Lines(b)
  {
    var s := a + [LF] + b;
    FirstLineFeedAfter(a, b);
    assert s[..|a|] == a;
    assert s[|a| + 1..] == b;
  }

  /** A non-empty piece without line feed is one line, taken verbatim. */
  lemma LinesLast(b: seq<Byte>)
    requires b != [] && NoLineFeed(b)
    ensures Lines(b) == [b]
  {
  }

  /** No line contains a line feed. */
  lemma {:induction false} LinesHaveNoLineFeed(s: seq<Byte>)
    ensures forall k :: 0 <= k < |Lines(s)| ==> NoLineFeed(Lines(s)[k])
    decreases |s|
  {
    if s != [] {
      match FirstLineFeed(s)
      case None =>
      case Some(i) =>
        LinesHaveNoLineFeed(s[i + 1..]);
        assert forall j :: 0 <= j < |StripCr(s[..i])| ==> StripCr(s[..i])[j] == s[..i][j];
    }
  }

  /** A line-feed-free piece and its line feed count one line feed. */
  lemma CountLineFeedsCons(a: seq<Byte>, b: seq<Byte>)
    requires NoLineFeed(a)
    ensures CountLineFeeds(a + [LF] + b) == 1 + CountLineFeeds(b)
  {
    CountLineFeedsAppend(a + [LF], b);
    CountLineFeedsAppend(a, [LF]);
    NoLineFeedCount(a);
    assert CountLineFeeds([LF]) == 1;
  }

  /** The text ends in an unterminated line. */
  predicate EndsOpen(s: seq<Byte>)
  {
    s != [] && s[|s| - 1] != LF
  }

  /** One line and its line feed add one line and one line feed, and leave
      the end of the text as it was. */
  lemma LinesCountStep(line: seq<Byte>, rest: seq<Byte>)
    requires NoLineFeed(line)
    ensures |Lines(line + [LF] + rest)| == 1 + |Lines(rest)|
    ensures CountLineFeeds(line + [LF] + rest) == 1 + CountLineFeeds(rest)
    ensures EndsOpen(line + [LF] + rest) == EndsOpen(rest)
  {
    LinesCons(line, rest);
    CountLineFeedsCons(line, rest);
  }

  /** The number of lines: one per line feed, plus an unterminated last one. */
  lemma {:induction false} LinesCount(s: seq<Byte>)
    ensures |Lines(s)| == CountLineFeeds(s) + (if EndsOpen(s) then 1 else 0)
    decreases |s|
  {
    if s != [] {
      match FirstLineFeed(s)
      case None =>
        NoLineFeedCount(s);
      case Some(i) =>
        assert s == s[..i] + [LF] + s[i + 1..];
        LinesCountStep(s[..i], s[i + 1..]);
        LinesCount(s[i + 1..]);
    }
  }

  /** Every line of valid UTF-8 text is valid UTF-8 text: each line is a
      `&str`. */
  lemma {:induction false} LinesValid(s: seq<Byte>)
    requires Utf8.Valid(s)
    ensures forall k :: 0 <= k < |Lines(s)| ==> Utf8.Valid(Lines(s)[k])
    decreases |s|
  {
    if s != [] {
      match FirstLineFeed(s)
      case None =>
      case Some(i) =>
        Utf8.SplitAtAscii(s, i);
        LinesValid(s[i + 1..]);
        var line := s[..i];
        if |line| > 0 && line[|line| - 1] == CR {
          Utf8.SplitAtAscii(line, |line| - 1);
        }
    }
  }

  /** A carriage return right before a line feed is dropped; one that ends
      the text without a line feed stays in the last line (the behaviour the
      Rust documentation of `str::lines` shows on "foo\nbar\n\r\nbaz\r"). */
  lemma CarriageReturnHandling(a: seq<Byte>, c: seq<Byte>)
    requires NoLineFeed(a) && NoLineFeed(c)
    ensures Lines(a + [CR, LF] + c + [CR]) == [a, c + [CR]]
  {
    assert a + [CR, LF] + c + [CR] == (a + [CR]) + [LF] + (c + [CR]);
    LinesCons(a + [CR], c + [CR]);
    assert (a + [CR])[..|a|] == a;
    assert NoLineFeed(c + [CR]) by {
      assert forall i :: 0 <= i < |c| ==> (c + [CR])[i] == c[i];
    }
    LinesLast(c + [CR]);
  }
}
