/**
 * One render of the dashboard script: the URL check and the time-gated refresh.
 *
 * The session remembers the time of the last pipeline run and the rows it loaded.
 * A render whose URL yields a post id re-runs fetch, score, store and reload only when
 * there is no previous run or more than `refreshRate` seconds have passed since it;
 * otherwise it shows the remembered rows again and reports no new comments. The
 * session is not keyed by post: the remembered rows are shown whatever post the URL
 * now names. The clock, the fetch and the scorer are parameters.
 */
module Refresh {
  import opened Options
  import opened Url
  import opened Store

  /** The extracted id passes `if post_id:`: `None` and the empty string both fail it. */
  predicate Usable(postId: Option<string>)
  {
    postId.Some? && postId.value != []
  }

  /** The gate: no `last_run` yet, or strictly more than `refreshRate` seconds since it. */
  predicate ShouldRun(lastRun: Option<real>, now: real, refreshRate: int)
  {
    lastRun.None? || now - lastRun.value > refreshRate as real
  }

  /** What a render shows. */
  datatype Screen =
    | Prompt                                  // no URL entered yet
    | InvalidUrl                              // the URL has no usable post id
    | Shown(view: seq<Row>, newCount: nat)    // the rows and the "new this round" count

  /** The session state that survives between renders. */
  class Session {
    var lastRun: Option<real>
    var df: seq<Row>

    /** A new session: no run recorded, nothing cached. */
    constructor ()
      ensures lastRun == None && df == []
    {
      lastRun := None;
      df := [];
    }

    /**
     * One execution of the script for the pasted `url`. `now` is the clock read by the
     * gate and `doneAt` the clock read after the pipeline has run; `fetch` returns the
     * comments of a post and `polarity` scores a comment body.
     */
    method Render(table: Table, url: string, fetch: string -> seq<Record>, polarity: string -> real,
                  now: real, doneAt: real, refreshRate: int) returns (screen: Screen)
      requires table.Valid()
      modifies this, table
      ensures table.Valid()
      ensures url == [] ==> screen == Prompt && unchanged(this, table)
      ensures url != [] && !Usable(GetPostIdFromUrl(url)) ==> screen == InvalidUrl && unchanged(this, table)
      ensures url != [] && Usable(GetPostIdFromUrl(url)) && !ShouldRun(old(lastRun), now, refreshRate) ==>
                screen == Shown(old(df), 0) && unchanged(this, table)
      ensures url != [] && Usable(GetPostIdFromUrl(url)) && ShouldRun(old(lastRun), now, refreshRate) ==>
                var postId := GetPostIdFromUrl(url).value;
                && table.rows == StoreBatch(old(table.rows), fetch(postId), polarity)
                && IsPostView(table.rows, postId, df)
                && lastRun == Some(doneAt)
                && screen == Shown(df, NewCount(old(table.rows), fetch(postId), polarity))
    {
      if url == [] {
        return Prompt;
      }
      var postId := GetPostIdFromUrl(url);
      if !Usable(postId) {
        return InvalidUrl;
      }
      var newCount := 0;
      if ShouldRun(lastRun, now, refreshRate) {
        var newComments := fetch(postId.value);
        newCount := table.AnalyzeAndStore(newComments, polarity);
        df := table.LoadComments(postId.value);
        lastRun := Some(doneAt);
      }
      screen := Shown(df, newCount);
    }
  }

  /**
   * Two renders in one session, the second within the refresh interval of the first
   * run's end: the second fetches nothing and shows the first view again, even when
   * its URL names another post.
   */
  method SecondRenderWithinInterval(url: string, url': string, fetch: string -> seq<Record>,
                                    polarity: string -> real, now: real, doneAt: real,
                                    now': real, doneAt': real, refreshRate: int)
    returns (first: Screen, second: Screen)
    requires Usable(GetPostIdFromUrl(url)) && Usable(GetPostIdFromUrl(url'))
    requires now' - doneAt <= refreshRate as real
    ensures first.Shown? && second == Shown(first.view, 0)
    ensures first.newCount == |IdsOf(fetch(GetPostIdFromUrl(url).value))|
    ensures forall r :: r in second.view ==> r.postId == GetPostIdFromUrl(url).value
  {
    assert url != [] && url' != [];
    var table := new Table();
    var session := new Session();
    first := session.Render(table, url, fetch, polarity, now, doneAt, refreshRate);
    NewCountIsFreshKeys(map[], fetch(GetPostIdFromUrl(url).value), polarity);
    second := session.Render(table, url', fetch, polarity, now', doneAt', refreshRate);
  }

  /** A doubled slash after "comments" yields the empty id, which the script rejects as invalid. */
  lemma EmptyPostIdRejected()
    ensures GetPostIdFromUrl("r/comments//t") == Some("")
    ensures !Usable(GetPostIdFromUrl("r/comments//t"))
  {
    var parts := ["r", "comments", "", "t"];
    JoinCons("", ["t"], SLASH);
    JoinCons("comments", ["", "t"], SLASH);
    JoinCons("r", ["comments", "", "t"], SLASH);
    assert Join(parts, SLASH) == "r/comments//t";
    assert FirstCommentsAt(parts, 1) by {
      assert parts[..1] == ["r"];
    }
    ExtractFromJoinedPath(parts, 1);
  }
}
