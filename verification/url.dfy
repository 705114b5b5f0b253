/**
 * Post-id extraction from a pasted post URL (`get_post_id_from_url`).
 *
 * The URL is stripped of '/' at both ends, split on '/', and the segment that
 * follows the first segment equal to "comments" is the post id. A missing
 * "comments" segment (`list.index` raises) or a "comments" segment at the very
 * end (the index lookup raises) both collapse to `None`.
 */
module Url {
  import opened Options

  const SLASH: char := '/'
  const COMMENTS: string := "comments"

  /** Python's `s.split(sep)` for a one-character separator: every occurrence splits. */
  function Split(s: string, sep: char): (parts: seq<string>)
    ensures |parts| >= 1
    ensures forall i :: 0 <= i < |parts| ==> sep !in parts[i]
    decreases |s|
  {
    if s == [] then [[]]
    else
      var rest := Split(s[1..], sep);
      if s[0] == sep then [[]] + rest
      else [[s[0]] + rest[0]] + rest[1..]
  }

  /** Python's `sep.join(parts)`: the inverse of `Split`. */
  function Join(parts: seq<string>, sep: char): (s: string)
    requires |parts| >= 1
    decreases |parts|
  {
    if |parts| == 1 then parts[0] else parts[0] + [sep] + Join(parts[1..], sep)
  }

  /** Python's `s.lstrip(c)`: drops every leading `c`. */
  function StripLeft(s: string, c: char): (r: string)
    ensures |r| <= |s| && r == s[|s| - |r|..]
    ensures forall i :: 0 <= i < |s| - |r| ==> s[i] == c
    ensures r == [] || r[0] != c
    decreases |s|
  {
    if s != [] && s[0] == c then StripLeft(s[1..], c) else s
  }

  /** Python's `s.rstrip(c)`: drops every trailing `c`. */
  function StripRight(s: string, c: char): (r: string)
    ensures |r| <= |s| && r == s[..|r|]
    ensures forall i :: |r| <= i < |s| ==> s[i] == c
    ensures r == [] || r[|r| - 1] != c
    decreases |s|
  {
    if s != [] && s[|s| - 1] == c then StripRight(s[..|s| - 1], c) else s
  }

  /** Python's `s.strip(c)`: drops every leading and every trailing `c`. */
  function Strip(s: string, c: char): (r: string)
    ensures |r| <= |s|
    ensures r == [] || (r[0] != c && r[|r| - 1] != c)
  {
    StripRight(StripLeft(s, c), c)
  }

  /** What `Strip` removes is `c` and nothing else, all of it at the two ends. */
  lemma StripRemovesOnlyEnds(s: string, c: char)
    ensures var r, lo := Strip(s, c), |s| - |StripLeft(s, c)|;
            lo + |r| <= |s| && r == s[lo..lo + |r|]
            && (forall i :: 0 <= i < lo ==> s[i] == c)
            && (forall i :: lo + |r| <= i < |s| ==> s[i] == c)
  {
    var left := StripLeft(s, c);
    var r := StripRight(left, c);
    var lo := |s| - |left|;
    assert r == left[..|r|] && left == s[lo..];
    forall i | lo + |r| <= i < |s|
      ensures s[i] == c
    {
      assert s[i] == left[i - lo];
    }
  }

  /** Python's `xs.index(x)`, with `None` where Python raises `ValueError`. */
  function IndexOf(xs: seq<string>, x: string): (r: Option<nat>)
    ensures r.None? <==> x !in xs
    ensures r.Some? ==> r.value < |xs| && xs[r.value] == x && x !in xs[..r.value]
    decreases |xs|
  {
    if xs == [] then None
    else if xs[0] == x then Some(0)
    else match IndexOf(xs[1..], x)
      case None => None
      case Some(i) => Some(i + 1)
  }

  /** The path segments `url.strip("/").split("/")`. */
  function Segments(url: string): (parts: seq<string>)
  {
    Split(Strip(url, SLASH), SLASH)
  }

  /** `i` is the position of the first "comments" segment. */
  predicate FirstCommentsAt(parts: seq<string>, i: int)
  {
    0 <= i < |parts| && parts[i] == COMMENTS && COMMENTS !in parts[..i]
  }

  /** `get_post_id_from_url`: the segment after the first "comments" segment, or `None`. */
  function GetPostIdFromUrl(url: string): (r: Option<string>)
    ensures r.Some? ==> exists i :: FirstCommentsAt(Segments(url), i) && i + 1 < |Segments(url)|
                                    && r.value == Segments(url)[i + 1]
    ensures r.None? <==> (COMMENTS !in Segments(url) || FirstCommentsAt(Segments(url), |Segments(url)| - 1))
    ensures r.Some? ==> SLASH !in r.value
  {
    var parts := Segments(url);
    match IndexOf(parts, COMMENTS)
    case None => None
    case Some(idx) =>
      assert FirstCommentsAt(parts, idx);
      if idx + 1 < |parts| then Some(parts[idx + 1]) else None
  }

  lemma {:induction false} JoinSplit(s: string, sep: char)
    ensures Join(Split(s, sep), sep) == s
    decreases |s|
  {
    if s != [] {
      var rest := Split(s[1..], sep);
      JoinSplit(s[1..], sep);
      if s[0] == sep {
        assert ([[]] + rest)[1..] == rest;
      } else if |rest| > 1 {
        var parts := [[s[0]] + rest[0]] + rest[1..];
        assert parts[1..] == rest[1..];
        assert Join(rest, sep) == rest[0] + [sep] + Join(rest[1..], sep);
      }
    }
  }

  lemma {:induction false} SplitWithoutSeparator(s: string, sep: char)
    requires sep !in s
    ensures Split(s, sep) == [s]
    decreases |s|
  {
    if s != [] {
      SplitWithoutSeparator(s[1..], sep);
      assert [s[0]] + s[1..] == s;
    }
  }

  lemma {:induction false} SplitAtFirstSeparator(a: string, b: string, sep: char)
    requires sep !in a
    ensures Split(a + [sep] + b, sep) == [a] + Split(b, sep)
    decreases |a|
  {
    var s := a + [sep] + b;
    if a == [] {
      assert s[1..] == b;
    } else {
      assert s[1..] == a[1..] + [sep] + b;
      SplitAtFirstSeparator(a[1..], b, sep);
      assert [a[0]] + a[1..] == a;
    }
  }

  lemma {:induction false} SplitJoin(parts: seq<string>, sep: char)
    requires |parts| >= 1
    requires forall i :: 0 <= i < |parts| ==> sep !in parts[i]
    ensures Split(Join(parts, sep), sep) == parts
    decreases |parts|
  {
    if |parts| == 1 {
      SplitWithoutSeparator(parts[0], sep);
    } else {
      SplitJoin(parts[1..], sep);
      SplitAtFirstSeparator(parts[0], Join(parts[1..], sep), sep);
      assert [parts[0]] + parts[1..] == parts;
    }
  }

  lemma JoinFirst(parts: seq<string>, sep: char)
    requires |parts| >= 1 && parts[0] != []
    ensures Join(parts, sep) != [] && Join(parts, sep)[0] == parts[0][0]
  {
  }

  lemma {:induction false} JoinLast(parts: seq<string>, sep: char)
    requires |parts| >= 1 && parts[|parts| - 1] != []
    ensures var s := Join(parts, sep);
            s != [] && s[|s| - 1] == parts[|parts| - 1][|parts[|parts| - 1]| - 1]
    decreases |parts|
  {
    if |parts| > 1 {
      JoinLast(parts[1..], sep);
    }
  }

  /** Joining slash-free segments that do not start or end the path empty gives back those segments. */
  lemma SegmentsOfJoin(parts: seq<string>)
    requires |parts| >= 1 && parts[0] != [] && parts[|parts| - 1] != []
    requires forall j :: 0 <= j < |parts| ==> SLASH !in parts[j]
    ensures Segments(Join(parts, SLASH)) == parts
  {
    var url := Join(parts, SLASH);
    JoinFirst(parts, SLASH);
    JoinLast(parts, SLASH);
    StripUnchanged(url, SLASH);
    SplitJoin(parts, SLASH);
  }

  /** The post id is the segment after the first "comments" segment, whenever there is one. */
  lemma PostIdAfterFirstComments(url: string, i: nat)
    requires FirstCommentsAt(Segments(url), i) && i + 1 < |Segments(url)|
    ensures GetPostIdFromUrl(url) == Some(Segments(url)[i + 1])
  {
    assert COMMENTS in Segments(url);
  }

  lemma StripUnchanged(s: string, c: char)
    requires s == [] || (s[0] != c && s[|s| - 1] != c)
    ensures Strip(s, c) == s
  {
  }

  /**
   * Round trip: a slash-free path whose first "comments" segment is at `i`, joined
   * with '/', yields back the segment after it.
   */
  lemma ExtractFromJoinedPath(parts: seq<string>, i: nat)
    requires |parts| >= 1 && parts[0] != [] && parts[|parts| - 1] != []
    requires forall j :: 0 <= j < |parts| ==> SLASH !in parts[j]
    requires FirstCommentsAt(parts, i) && i + 1 < |parts|
    ensures GetPostIdFromUrl(Join(parts, SLASH)) == Some(parts[i + 1])
  {
    SegmentsOfJoin(parts);
    PostIdAfterFirstComments(Join(parts, SLASH), i);
  }

  /** A slash-free path without a "comments" segment, joined with '/', has no post id. */
  lemma NoPostIdInJoinedPath(parts: seq<string>)
    requires |parts| >= 1 && parts[0] != [] && parts[|parts| - 1] != []
    requires forall j :: 0 <= j < |parts| ==> SLASH !in parts[j]
    requires COMMENTS !in parts
    ensures GetPostIdFromUrl(Join(parts, SLASH)) == None
  {
    SegmentsOfJoin(parts);
    NoCommentsSegment(Join(parts, SLASH));
  }

  /** A URL without a "comments" segment has no post id. */
  lemma NoCommentsSegment(url: string)
    requires COMMENTS !in Segments(url)
    ensures GetPostIdFromUrl(url) == None
  {
  }

  lemma JoinCons(head: string, rest: seq<string>, sep: char)
    requires |rest| >= 1
    ensures Join([head] + rest, sep) == head + [sep] + Join(rest, sep)
  {
    assert ([head] + rest)[1..] == rest;
  }

  /** A post URL path and its segments. */
  const EXAMPLE_URL: string := "r/x/comments/abc123/title"
  const EXAMPLE_SEGMENTS: seq<string> := ["r", "x", "comments", "abc123", "title"]

  /** A URL without a "comments" segment and its segments. */
  const NO_COMMENTS_URL: string := "https://example.com/nope"
  const NO_COMMENTS_SEGMENTS: seq<string> := ["https:", "", "example.com", "nope"]

  lemma ExampleCommentJoin()
    ensures Join(EXAMPLE_SEGMENTS, SLASH) == EXAMPLE_URL
  {
    var parts := EXAMPLE_SEGMENTS;
    var tail := parts[2..];
    JoinCons("abc123", ["title"], SLASH);
    JoinCons("comments", tail[1..], SLASH);
    JoinCons("x", tail, SLASH);
    JoinCons("r", ["x"] + tail, SLASH);
    assert ["r"] + (["x"] + tail) == parts;
  }

  /** The path `r/x/comments/abc123/title` names post `abc123`. */
  lemma ExampleCommentUrl()
    ensures GetPostIdFromUrl(EXAMPLE_URL) == Some("abc123")
  {
    var parts := EXAMPLE_SEGMENTS;
    ExampleCommentJoin();
    assert FirstCommentsAt(parts, 2) by {
      assert parts[..2] == ["r", "x"];
    }
    ExtractFromJoinedPath(parts, 2);
  }

  lemma ExampleNoCommentsJoin()
    ensures Join(NO_COMMENTS_SEGMENTS, SLASH) == NO_COMMENTS_URL
  {
    var parts := NO_COMMENTS_SEGMENTS;
    var tail := parts[2..];
    JoinCons("example.com", ["nope"], SLASH);
    JoinCons("", tail, SLASH);
    JoinCons("https:", [""] + tail, SLASH);
    assert ["https:"] + ([""] + tail) == parts;
  }

  /** The URL `https://example.com/nope` has no "comments" segment and so no post id. */
  lemma ExampleNoCommentsUrl()
    ensures GetPostIdFromUrl(NO_COMMENTS_URL) == None
  {
    ExampleNoCommentsJoin();
    NoPostIdInJoinedPath(NO_COMMENTS_SEGMENTS);
  }
}
