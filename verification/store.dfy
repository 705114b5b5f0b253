/**
 * The `comments` table and the two operations on it: the deduplicating batch
 * insert of `analyze_and_store` and the post-scoped, newest-first query of
 * `load_comments`.
 *
 * The table is a map from primary key to row. A batch insert tries each record in
 * turn; an insert whose key is already present fails with an integrity error and is
 * skipped, so the first write of a key wins and no row is ever updated or deleted.
 */
module Store {
  import opened Sentiment
  import opened Timestamps

  /** The primary key: an opaque digest of the platform's own comment id. */
  type Id = string

  /** A fetched comment, before scoring. */
  datatype Record = Record(id: Id, postId: string, body: string, score: int, createdUtc: string)

  /** A stored row of the `comments` table. */
  datatype Row = Row(id: Id, postId: string, body: string, score: int, createdUtc: string,
                     sentiment: real, sentimentLabel: Label)

  /** What one INSERT did: stored the row, or hit the primary key and was skipped. */
  datatype InsertOutcome = Inserted | Duplicate

  /** The row built for a record: its polarity from the external scorer and the label derived from it. */
  function Analyze(c: Record, polarity: string -> real): (row: Row)
  {
    var sentiment := polarity(c.body);
    Row(c.id, c.postId, c.body, c.score, c.createdUtc, sentiment, LabelOf(sentiment))
  }

  /** Every row sits under its own primary key. */
  ghost predicate Keyed(t: map<Id, Row>)
  {
    forall k :: k in t ==> t[k].id == k
  }

  /** Every stored label is the one its stored polarity determines. */
  ghost predicate Labelled(t: map<Id, Row>)
  {
    forall k :: k in t ==> t[k].sentimentLabel == LabelOf(t[k].sentiment)
  }

  /** The table after one INSERT: unchanged when the key is taken. */
  function InsertOrSkip(t: map<Id, Row>, row: Row): (t': map<Id, Row>)
  {
    if row.id in t then t else t[row.id := row]
  }

  /** The table after the records of `cs` are inserted in order. */
  function StoreBatch(t: map<Id, Row>, cs: seq<Record>, polarity: string -> real): (t': map<Id, Row>)
    decreases |cs|
  {
    if cs == [] then t
    else InsertOrSkip(StoreBatch(t, cs[..|cs| - 1], polarity), Analyze(cs[|cs| - 1], polarity))
  }

  /** How many records of `cs` found their key free at the time of their insert. */
  function NewCount(t: map<Id, Row>, cs: seq<Record>, polarity: string -> real): (n: nat)
    ensures n <= |cs|
    decreases |cs|
  {
    if cs == [] then 0
    else
      var before := StoreBatch(t, cs[..|cs| - 1], polarity);
      NewCount(t, cs[..|cs| - 1], polarity) + if cs[|cs| - 1].id in before then 0 else 1
  }

  /** The keys a batch carries. */
  function IdsOf(cs: seq<Record>): (ids: set<Id>)
  {
    set c | c in cs :: c.id
  }

  lemma IdsOfSnoc(cs: seq<Record>)
    requires cs != []
    ensures IdsOf(cs) == IdsOf(cs[..|cs| - 1]) + {cs[|cs| - 1].id}
  {
    assert cs == cs[..|cs| - 1] + [cs[|cs| - 1]];
  }

  /** Inserting a batch adds exactly the batch's keys. */
  lemma {:induction false} StoreBatchKeys(t: map<Id, Row>, cs: seq<Record>, polarity: string -> real)
    ensures StoreBatch(t, cs, polarity).Keys == t.Keys + IdsOf(cs)
    decreases |cs|
  {
    if cs != [] {
      StoreBatchKeys(t, cs[..|cs| - 1], polarity);
      IdsOfSnoc(cs);
    }
  }

  /** First write wins: a row present before the batch is still there, unchanged. */
  lemma {:induction false} StoreBatchKeepsRows(t: map<Id, Row>, cs: seq<Record>, polarity: string -> real)
    ensures forall k :: k in t ==> k in StoreBatch(t, cs, polarity) && StoreBatch(t, cs, polarity)[k] == t[k]
    decreases |cs|
  {
    if cs != [] {
      StoreBatchKeepsRows(t, cs[..|cs| - 1], polarity);
    }
  }

  /** Inserting `a + b` in one batch is inserting `a`, then `b`. */
  lemma {:induction false} StoreBatchAppend(t: map<Id, Row>, a: seq<Record>, b: seq<Record>, polarity: string -> real)
    ensures StoreBatch(t, a + b, polarity) == StoreBatch(StoreBatch(t, a, polarity), b, polarity)
    decreases |b|
  {
    if b == [] {
      assert a + b == a;
    } else {
      StoreBatchAppend(t, a, b[..|b| - 1], polarity);
      assert (a + b)[..|a + b| - 1] == a + b[..|b| - 1];
    }
  }

  /**
   * Within a batch the first record carrying a new key wins: its row is the one
   * stored, whatever later records with the same key say.
   */
  lemma FirstInBatchWins(t: map<Id, Row>, cs: seq<Record>, polarity: string -> real, i: nat)
    requires i < |cs| && cs[i].id !in t
    requires forall j :: 0 <= j < i ==> cs[j].id != cs[i].id
    ensures cs[i].id in StoreBatch(t, cs, polarity)
    ensures StoreBatch(t, cs, polarity)[cs[i].id] == Analyze(cs[i], polarity)
  {
    var front, rest := cs[..i + 1], cs[i + 1..];
    assert cs == front + rest;
    StoreBatchAppend(t, front, rest, polarity);
    StoreBatchKeys(t, cs[..i], polarity);
    assert front[..i] == cs[..i];
    assert cs[i].id !in IdsOf(cs[..i]);
    StoreBatchKeepsRows(StoreBatch(t, front, polarity), rest, polarity);
  }

  /** The count reported is the number of the batch's keys that were not yet stored. */
  lemma {:induction false} NewCountIsFreshKeys(t: map<Id, Row>, cs: seq<Record>, polarity: string -> real)
    ensures NewCount(t, cs, polarity) == |IdsOf(cs) - t.Keys|
    decreases |cs|
  {
    if cs != [] {
      var init, last := cs[..|cs| - 1], cs[|cs| - 1];
      NewCountIsFreshKeys(t, init, polarity);
      StoreBatchKeys(t, init, polarity);
      IdsOfSnoc(cs);
      FreshKeysSnoc(t.Keys, IdsOf(init), last.id);
    }
  }

  lemma FreshKeysSnoc(stored: set<Id>, ids: set<Id>, x: Id)
    ensures |(ids + {x}) - stored| == |ids - stored| + if x in stored || x in ids then 0 else 1
  {
    if x !in stored && x !in ids {
      assert (ids + {x}) - stored == (ids - stored) + {x};
    } else {
      assert (ids + {x}) - stored == ids - stored;
    }
  }

  /** Inserting keeps every row under its own key. */
  lemma {:induction false} StoreBatchKeyed(t: map<Id, Row>, cs: seq<Record>, polarity: string -> real)
    requires Keyed(t)
    ensures Keyed(StoreBatch(t, cs, polarity))
    decreases |cs|
  {
    if cs != [] {
      StoreBatchKeyed(t, cs[..|cs| - 1], polarity);
    }
  }

  /** Inserting keeps every stored label consistent with its stored polarity. */
  lemma {:induction false} StoreBatchLabelled(t: map<Id, Row>, cs: seq<Record>, polarity: string -> real)
    requires Labelled(t)
    ensures Labelled(StoreBatch(t, cs, polarity))
    decreases |cs|
  {
    if cs != [] {
      StoreBatchLabelled(t, cs[..|cs| - 1], polarity);
    }
  }

  /** A batch whose keys are all stored already changes nothing and inserts nothing. */
  lemma AlreadyStoredIsNoop(t: map<Id, Row>, cs: seq<Record>, polarity: string -> real)
    requires IdsOf(cs) <= t.Keys
    ensures StoreBatch(t, cs, polarity) == t
    ensures NewCount(t, cs, polarity) == 0
  {
    StoreBatchKeys(t, cs, polarity);
    StoreBatchKeepsRows(t, cs, polarity);
    NewCountIsFreshKeys(t, cs, polarity);
    assert IdsOf(cs) - t.Keys == {};
  }

  /**
   * Re-fetching comments already stored is a no-op, even when their score, text or
   * polarity differ the second time.
   */
  lemma RefetchIsNoop(t: map<Id, Row>, first: seq<Record>, again: seq<Record>,
                      polarity: string -> real, polarity': string -> real)
    requires IdsOf(again) <= IdsOf(first)
    ensures var stored := StoreBatch(t, first, polarity);
            StoreBatch(stored, again, polarity') == stored && NewCount(stored, again, polarity') == 0
  {
    StoreBatchKeys(t, first, polarity);
    AlreadyStoredIsNoop(StoreBatch(t, first, polarity), again, polarity');
  }

  /** Storing the same batch twice: the second run inserts nothing and leaves the table as it was. */
  lemma StoreBatchIdempotent(t: map<Id, Row>, cs: seq<Record>, polarity: string -> real)
    ensures StoreBatch(StoreBatch(t, cs, polarity), cs, polarity) == StoreBatch(t, cs, polarity)
    ensures NewCount(StoreBatch(t, cs, polarity), cs, polarity) == 0
  {
    RefetchIsNoop(t, cs, cs, polarity, polarity);
  }

  /** `df` is newest first by `created_utc`. */
  predicate NewestFirst(df: seq<Row>)
  {
    forall i, j :: 0 <= i < j < |df| ==> TextLe(df[j].createdUtc, df[i].createdUtc)
  }

  /** The keys of the rows stored for one post. */
  function PostKeys(t: map<Id, Row>, postId: string): (keys: set<Id>)
  {
    set k | k in t && t[k].postId == postId
  }

  /**
   * `df` is a result of `SELECT * FROM comments WHERE post_id = ? ORDER BY created_utc DESC`:
   * each stored row of the post exactly once, nothing else, newest first. Rows with
   * equal timestamps may come in any order.
   */
  ghost predicate IsPostView(t: map<Id, Row>, postId: string, df: seq<Row>)
  {
    && (forall i :: 0 <= i < |df| ==> df[i].id in t && t[df[i].id] == df[i] && df[i].postId == postId)
    && (forall k :: k in PostKeys(t, postId) ==> t[k] in df)
    && (forall i, j :: 0 <= i < j < |df| ==> df[i].id != df[j].id)
    && NewestFirst(df)
  }

  /** Among finitely many stored keys there is one whose row is newest. */
  lemma {:induction false} NewestExists(t: map<Id, Row>, ks: set<Id>)
    requires ks != {} && ks <= t.Keys
    ensures exists k :: k in ks && forall k' :: k' in ks ==> TextLe(t[k'].createdUtc, t[k].createdUtc)
    decreases |ks|
  {
    var x :| x in ks;
    if ks == {x} {
      TextLeReflexive(t[x].createdUtc);
      assert forall k' :: k' in ks ==> k' == x;
    } else {
      var others := ks - {x};
      NewestExists(t, others);
      var m :| m in others && forall k' :: k' in others ==> TextLe(t[k'].createdUtc, t[m].createdUtc);
      TextLeTotal(t[x].createdUtc, t[m].createdUtc);
      if TextLe(t[x].createdUtc, t[m].createdUtc) {
        assert forall k' :: k' in ks ==> TextLe(t[k'].createdUtc, t[m].createdUtc);
      } else {
        forall k' | k' in ks
          ensures TextLe(t[k'].createdUtc, t[x].createdUtc)
        {
          if k' == x {
            TextLeReflexive(t[x].createdUtc);
          } else {
            TextLeTransitive(t[k'].createdUtc, t[m].createdUtc, t[x].createdUtc);
          }
        }
      }
    }
  }

  /** The number of rows a post view shows is the number of rows stored for the post. */
  lemma PostViewSize(t: map<Id, Row>, postId: string, df: seq<Row>)
    requires Keyed(t) && IsPostView(t, postId, df)
    ensures |df| == |PostKeys(t, postId)|
  {
    var ids := set r | r in df :: r.id;
    forall k | k in PostKeys(t, postId)
      ensures k in ids
    {
      assert t[k] in df;
    }
    assert ids == PostKeys(t, postId);
    DistinctIdsCount(df);
  }

  lemma {:induction false} DistinctIdsCount(df: seq<Row>)
    requires forall i, j :: 0 <= i < j < |df| ==> df[i].id != df[j].id
    ensures |set r | r in df :: r.id| == |df|
    decreases |df|
  {
    if df != [] {
      var init, last := df[..|df| - 1], df[|df| - 1];
      DistinctIdsCount(init);
      assert df == init + [last];
      assert (set r | r in df :: r.id) == (set r | r in init :: r.id) + {last.id};
      assert last.id !in (set r | r in init :: r.id);
    }
  }

  /** The `comments` table. */
  class Table {
    var rows: map<Id, Row>

    ghost predicate Valid()
      reads this
    {
      Keyed(rows)
    }

    /** `init_db` on a fresh database file: the table exists and is empty. */
    constructor ()
      ensures Valid() && rows == map[]
    {
      rows := map[];
    }

    /** One `INSERT INTO comments ...`: skipped with `Duplicate` when the key is taken. */
    method Insert(row: Row) returns (outcome: InsertOutcome)
      requires Valid()
      modifies this
      ensures Valid()
      ensures outcome == (if row.id in old(rows) then Duplicate else Inserted)
      ensures rows == InsertOrSkip(old(rows), row)
    {
      if row.id in rows {
        outcome := Duplicate;
      } else {
        rows := rows[row.id := row];
        outcome := Inserted;
      }
    }

    /** `analyze_and_store`: scores and inserts each record in turn, counting the inserts that succeed. */
    method AnalyzeAndStore(comments: seq<Record>, polarity: string -> real) returns (inserted: nat)
      requires Valid()
      modifies this
      ensures Valid()
      ensures rows == StoreBatch(old(rows), comments, polarity)
      ensures inserted == NewCount(old(rows), comments, polarity)
    {
      inserted := 0;
      var i := 0;
      while i < |comments|
        invariant 0 <= i <= |comments|
        invariant Valid()
        invariant rows == StoreBatch(old(rows), comments[..i], polarity)
        invariant inserted == NewCount(old(rows), comments[..i], polarity)
      {
        var c := comments[i];
        var sentiment := polarity(c.body);
        var sentimentLabel := LabelOf(sentiment);
        var outcome := Insert(Row(c.id, c.postId, c.body, c.score, c.createdUtc, sentiment, sentimentLabel));
        if outcome == Inserted {
          inserted := inserted + 1;
        }
        assert comments[..i + 1][..i] == comments[..i];
        i := i + 1;
      }
      assert comments[..i] == comments;
    }

    /** `load_comments`: the rows of one post, newest first. */
    method LoadComments(postId: string) returns (df: seq<Row>)
      requires Valid()
      ensures IsPostView(rows, postId, df)
    {
      var pending := PostKeys(rows, postId);
      df := [];
      while pending != {}
        invariant pending <= PostKeys(rows, postId)
        invariant forall i :: 0 <= i < |df| ==>
                    df[i].id in rows && rows[df[i].id] == df[i] && df[i].postId == postId && df[i].id !in pending
        invariant forall k :: k in PostKeys(rows, postId) ==> k in pending || rows[k] in df
        invariant forall i, j :: 0 <= i < j < |df| ==> df[i].id != df[j].id
        invariant NewestFirst(df)
        invariant forall i, k :: 0 <= i < |df| && k in pending ==> TextLe(rows[k].createdUtc, df[i].createdUtc)
        decreases pending
      {
        NewestExists(rows, pending);
        var k :| k in pending && forall k' :: k' in pending ==> TextLe(rows[k'].createdUtc, rows[k].createdUtc);
        df := df + [rows[k]];
        pending := pending - {k};
      }
    }
  }
}
