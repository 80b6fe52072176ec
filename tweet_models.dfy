/** The list models behind the timeline views: a row container of tweet items, and the
    timeline models that load a first page, newer tweets and older tweets into it under a
    re-entrancy guard. Each load takes the page the API returned as a parameter. */
module TweetModels {
  import opened RawRecords
  import opened TweetItems

  /** The elements of `s` in the opposite order. */
  function Reversed<T>(s: seq<T>): (r: seq<T>)
    ensures |r| == |s|
    ensures forall i :: 0 <= i < |s| ==> r[i] == s[|s| - 1 - i]
  {
    seq(|s|, i requires 0 <= i < |s| => s[|s| - 1 - i])
  }

  lemma {:induction false} ReversedTwice<T>(s: seq<T>)
    ensures Reversed(Reversed(s)) == s
  {
    var rr := Reversed(Reversed(s));
    forall i | 0 <= i < |s| ensures rr[i] == s[i] {
      assert rr[i] == Reversed(s)[|s| - 1 - i];
    }
  }

  /** One tweet item per raw record of a page, in page order. */
  function Items(page: seq<Record>): (items: seq<TweetItem>)
    ensures |items| == |page|
    ensures forall i :: 0 <= i < |page| ==> items[i] == TweetItem(page[i])
  {
    seq(|page|, i requires 0 <= i < |page| => TweetItem(page[i]))
  }

  lemma {:induction false} ItemsReversed(page: seq<Record>)
    ensures Items(Reversed(page)) == Reversed(Items(page))
  {
    var rev, items := Reversed(page), Items(page);
    var a, b := Items(rev), Reversed(items);
    forall i | 0 <= i < |page| ensures a[i] == b[i] {
      var j := |page| - 1 - i;
      assert a[i] == TweetItem(rev[i]);
      assert rev[i] == page[j];
      assert b[i] == items[j];
      assert items[j] == TweetItem(page[j]);
    }
  }

  /** Inserting the reversed page block-wise at the front, one record at a time at index 0,
      lays the page out in its own order. */
  lemma {:induction false} NewestFirst(page: seq<Record>)
    ensures Reversed(Items(Reversed(page))) == Items(page)
  {
    ItemsReversed(page);
    ReversedTwice(Items(page));
  }

  /** `timeline[1::]`: the page without its first record, which repeats the oldest tweet
      already shown. */
  function DropFirst(page: seq<Record>): (rest: seq<Record>)
    ensures |rest| == if page == [] then 0 else |page| - 1
    ensures forall i :: 0 <= i < |rest| ==> rest[i] == page[i + 1]
  {
    if page == [] then [] else page[1..]
  }

  /** `int(rows[0].id)`: None when there is no first row or its id does not convert. */
  function FirstId(rows: seq<TweetItem>): (id: Option<int>)
    ensures rows == [] ==> id.None?
  {
    if rows == [] then None else IntOf(rows[0].Id())
  }

  /** `int(rows[-1].id)`: None when there is no last row or its id does not convert. */
  function LastId(rows: seq<TweetItem>): (id: Option<int>)
    ensures rows == [] ==> id.None?
  {
    if rows == [] then None else IntOf(rows[|rows| - 1].Id())
  }

  /** How many records of `page`, from the front, can be wrapped before the first one whose
      wrapping raises: all of them exactly when every record can be wrapped. */
  function ConstructedPrefix(env: Collaborators, page: seq<Record>): (k: nat)
    ensures k <= |page|
    ensures forall i {:trigger Constructs(env, TweetItem(page[i]))} :: 0 <= i < k ==>
              Constructs(env, TweetItem(page[i]))
  {
    if page == [] || !Constructs(env, TweetItem(page[0])) then 0
    else 1 + ConstructedPrefix(env, page[1..])
  }

  /** The prefix ends at the first record that cannot be wrapped, so it covers the whole page
      exactly when every record can be wrapped. */
  lemma {:induction false} ConstructedPrefixStops(env: Collaborators, page: seq<Record>)
    ensures ConstructedPrefix(env, page) < |page| ==>
              !Constructs(env, TweetItem(page[ConstructedPrefix(env, page)]))
    ensures ConstructedPrefix(env, page) == |page| <==>
              forall i :: 0 <= i < |page| ==> Constructs(env, TweetItem(page[i]))
  {
    if page != [] && Constructs(env, TweetItem(page[0])) {
      ConstructedPrefixStops(env, page[1..]);
      assert forall i :: 0 < i < |page| ==> page[i] == page[1..][i - 1];
    }
  }

  /** How a load ended: skipped because another load held the guard, completed, or ended by
      an exception partway through (a record that cannot be wrapped, an empty list, or an id
      that does not convert). */
  datatype Outcome = Skipped | Completed | Raised

  /** The row container: the items of the list view, in display order. */
  class TweetAbstractModel {
    var tweets: seq<TweetItem>

    constructor ()
      ensures tweets == []
    {
      tweets := [];
    }

    method RowCount() returns (n: nat)
      ensures n == |tweets|
    {
      n := |tweets|;
    }

    /** Inserts `item` at index `row`; the view framework requires `row` to be an existing
        index or the end of the list. */
    method InsertRow(row: int, item: TweetItem)
      requires 0 <= row <= |tweets|
      modifies this
      ensures tweets == old(tweets)[..row] + [item] + old(tweets)[row..]
      ensures |tweets| == |old(tweets)| + 1 && tweets[row] == item
      ensures forall i :: 0 <= i < row ==> tweets[i] == old(tweets)[i]
      ensures forall i :: row < i < |tweets| ==> tweets[i] == old(tweets)[i - 1]
    {
      tweets := tweets[..row] + [item] + tweets[row..];
    }

    method AppendRow(item: TweetItem)
      modifies this
      ensures tweets == old(tweets) + [item]
    {
      var n := RowCount();
      InsertRow(n, item);
      assert old(tweets)[..n] == old(tweets) && old(tweets)[n..] == [];
    }

    /** Wraps each record of `items` and appends it, in order. Wrapping a record that cannot
        be wrapped raises, which ends the loop with the records before it appended. */
    method AppendRows(env: Collaborators, items: seq<Record>) returns (raised: bool)
      modifies this
      ensures raised <==> ConstructedPrefix(env, items) < |items|
      ensures tweets == old(tweets) + Items(items[..ConstructedPrefix(env, items)])
    {
      ghost var k := ConstructedPrefix(env, items);
      ConstructedPrefixStops(env, items);
      var i := 0;
      while i < |items| && Constructs(env, TweetItem(items[i]))
        invariant i <= k
        invariant tweets == old(tweets) + Items(items[..i])
      {
        AppendRow(TweetItem(items[i]));
        ItemsOfLongerPrefix(items, i);
        i := i + 1;
      }
      assert i == k;
      raised := i < |items|;
    }

    /** Wraps each record of `items` and inserts it at index `row`, each one at the same
        index, so the block lands in the opposite order. Wrapping a record that cannot be
        wrapped raises, which ends the loop with the records before it inserted. */
    method InsertRows(env: Collaborators, row: int, items: seq<Record>) returns (raised: bool)
      requires 0 <= row <= |tweets|
      modifies this
      ensures raised <==> ConstructedPrefix(env, items) < |items|
      ensures tweets == old(tweets)[..row] + Reversed(Items(items[..ConstructedPrefix(env, items)]))
                        + old(tweets)[row..]
    {
      ghost var k := ConstructedPrefix(env, items);
      ConstructedPrefixStops(env, items);
      ghost var before := tweets;
      var i := 0;
      while i < |items| && Constructs(env, TweetItem(items[i]))
        invariant i <= k
        invariant tweets == before[..row] + Reversed(Items(items[..i])) + before[row..]
      {
        SpliceAt(before[..row], Reversed(Items(items[..i])), before[row..], TweetItem(items[i]));
        InsertRow(row, TweetItem(items[i]));
        ReversedItemsOfLongerPrefix(items, i);
        i := i + 1;
      }
      assert i == k;
      raised := i < |items|;
    }

    method Clear()
      modifies this
      ensures tweets == []
    {
      tweets := [];
    }
  }

  lemma {:induction false} ItemsAppend(page: seq<Record>, r: Record)
    ensures Items(page + [r]) == Items(page) + [TweetItem(r)]
  {
    var a, b := Items(page + [r]), Items(page) + [TweetItem(r)];
    forall i | 0 <= i < |page| + 1 ensures a[i] == b[i] {
      if i < |page| {
        assert (page + [r])[i] == page[i];
      }
    }
  }

  /** One more record of the page wraps to one more item at the end. */
  lemma ItemsOfLongerPrefix(page: seq<Record>, i: nat)
    requires i < |page|
    ensures Items(page[..i + 1]) == Items(page[..i]) + [TweetItem(page[i])]
  {
    assert page[..i + 1] == page[..i] + [page[i]];
    ItemsAppend(page[..i], page[i]);
  }

  /** One more record of the page puts one more item in front of the reversed block. */
  lemma ReversedItemsOfLongerPrefix(page: seq<Record>, i: nat)
    requires i < |page|
    ensures Reversed(Items(page[..i + 1])) == [TweetItem(page[i])] + Reversed(Items(page[..i]))
  {
    assert page[..i + 1] == page[..i] + [page[i]];
    ReversedItemsAppend(page[..i], page[i]);
  }

  /** Inserting at the boundary between `pre` and the rest puts the new element in front of
      `mid`. */
  lemma SpliceAt<T>(pre: seq<T>, mid: seq<T>, post: seq<T>, x: T)
    ensures var s := pre + mid + post;
            s[..|pre|] + [x] + s[|pre|..] == pre + ([x] + mid) + post
  {
    var s := pre + mid + post;
    assert s[..|pre|] == pre;
    assert s[|pre|..] == mid + post;
  }

  /** Putting the block of the first `k` records of the reversed page at the front of
      `rows`, as `InsertRows(0, ...)` does, gives the last `k` records of the page, in the
      page's own order, followed by the old rows. */
  lemma PrependReversed(page: seq<Record>, k: nat, rows: seq<TweetItem>)
    requires k <= |page|
    ensures rows[..0] + Reversed(Items(Reversed(page)[..k])) + rows[0..]
         == Items(page[|page| - k..]) + rows
    ensures k == |page| ==> Items(page[|page| - k..]) + rows == Items(page) + rows
  {
    assert page[0..] == page;
    var tail := page[|page| - k..];
    var block := Reversed(Items(Reversed(page)[..k]));
    assert block == Items(tail) by {
      ReversedPrefix(page, k);
      NewestFirst(tail);
    }
    assert rows[..0] == [] && rows[0..] == rows;
  }

  /** The first `k` elements of the reversal are the reversal of the last `k` elements. */
  lemma ReversedPrefix<T>(s: seq<T>, k: nat)
    requires k <= |s|
    ensures Reversed(s)[..k] == Reversed(s[|s| - k..])
  {
    var a, b, tail := Reversed(s)[..k], Reversed(s[|s| - k..]), s[|s| - k..];
    forall i | 0 <= i < k ensures a[i] == b[i] {
      assert b[i] == tail[k - 1 - i] == s[|s| - 1 - i];
    }
  }

  lemma ReversedSnoc<T>(s: seq<T>, x: T)
    ensures Reversed(s + [x]) == [x] + Reversed(s)
  {
    var a, b := Reversed(s + [x]), [x] + Reversed(s);
    forall i | 0 <= i < |s| + 1 ensures a[i] == b[i] {
      if i > 0 {
        assert a[i] == (s + [x])[|s| - i] == s[|s| - i];
        assert b[i] == Reversed(s)[i - 1];
      }
    }
  }

  lemma ReversedItemsAppend(page: seq<Record>, r: Record)
    ensures Reversed(Items(page + [r])) == [TweetItem(r)] + Reversed(Items(page))
  {
    ItemsAppend(page, r);
    ReversedSnoc(Items(page), TweetItem(r));
  }

  /** The timeline model of statuses: its rows, the guard that keeps a second load from
      running while one is in progress, and the ids of the newest and oldest rows loaded,
      which are unset until the first load completes. */
  class TweetCommonModel {
    const rows: TweetAbstractModel
    var lock: bool
    var since: Option<int>
    var max: Option<int>

    constructor ()
      ensures fresh(rows) && rows.tweets == []
      ensures !lock && since == None && max == None
    {
      rows := new TweetAbstractModel();
      lock := false;
      since, max := None, None;
    }

    /** Loads a first page: appends it, then records the first and last row ids. */
    method GetThread(env: Collaborators, page: seq<Record>) returns (outcome: Outcome)
      modifies this, rows
      ensures old(lock) ==> outcome == Skipped && unchanged(this, rows)
      ensures !old(lock) ==>
                rows.tweets == old(rows.tweets) + Items(page[..ConstructedPrefix(env, page)])
      ensures !old(lock) ==>
                (outcome == Completed <==>
                   ConstructedPrefix(env, page) == |page| &&
                   FirstId(rows.tweets).Some? && LastId(rows.tweets).Some?)
      ensures !old(lock) ==> outcome != Skipped && (lock <==> outcome == Raised)
      ensures !old(lock) ==>
                since == if ConstructedPrefix(env, page) == |page| && FirstId(rows.tweets).Some?
                         then FirstId(rows.tweets) else old(since)
      ensures !old(lock) ==> max == if outcome == Completed then LastId(rows.tweets) else old(max)
    {
      if lock {
        return Skipped;
      }
      lock := true;
      var raised := rows.AppendRows(env, page);
      if raised {
        return Raised;
      }
      var first := FirstId(rows.tweets);
      if first.None? {
        return Raised;
      }
      since := first;
      var last := LastId(rows.tweets);
      if last.None? {
        return Raised;
      }
      max := last;
      lock := false;
      return Completed;
    }

    /** Loads the statuses newer than the newest row: the page arrives newest first, is
        reversed, and is inserted record by record at index 0, so it ends up on top in the
        page's own order. Then it records the new first row id. When a record cannot be
        wrapped, the older records before it in the page are already on top. */
    method NewThread(env: Collaborators, page: seq<Record>) returns (outcome: Outcome)
      modifies this, rows
      ensures old(lock) ==> outcome == Skipped && unchanged(this, rows)
      ensures !old(lock) ==>
                rows.tweets == Items(page[|page| - ConstructedPrefix(env, Reversed(page))..])
                               + old(rows.tweets)
      ensures !old(lock) ==>
                (outcome == Completed <==>
                   ConstructedPrefix(env, Reversed(page)) == |page| && FirstId(rows.tweets).Some?)
      ensures !old(lock) && outcome == Completed ==> rows.tweets == Items(page) + old(rows.tweets)
      ensures !old(lock) ==> outcome != Skipped && (lock <==> outcome == Raised)
      ensures !old(lock) ==>
                since == if outcome == Completed then FirstId(rows.tweets) else old(since)
      ensures max == old(max)
    {
      if lock {
        return Skipped;
      }
      lock := true;
      ghost var before := rows.tweets;
      var raised := rows.InsertRows(env, 0, Reversed(page));
      PrependReversed(page, ConstructedPrefix(env, Reversed(page)), before);
      var first := FirstId(rows.tweets);
      if raised || first.None? {
        outcome := Raised;
      } else {
        since := first;
        lock := false;
        outcome := Completed;
      }
    }

    /** Loads the statuses older than the oldest row: the page starts with that oldest row
        again, so all but its first record are appended. Then it records the new last row id. */
    method OldThread(env: Collaborators, page: seq<Record>) returns (outcome: Outcome)
      modifies this, rows
      ensures old(lock) ==> outcome == Skipped && unchanged(this, rows)
      ensures !old(lock) ==>
                rows.tweets == old(rows.tweets) +
                               Items(DropFirst(page)[..ConstructedPrefix(env, DropFirst(page))])
      ensures !old(lock) ==>
                (outcome == Completed <==>
                   ConstructedPrefix(env, DropFirst(page)) == |DropFirst(page)| &&
                   LastId(rows.tweets).Some?)
      ensures !old(lock) ==> outcome != Skipped && (lock <==> outcome == Raised)
      ensures !old(lock) ==>
                max == if outcome == Completed then LastId(rows.tweets) else old(max)
      ensures since == old(since)
    {
      if lock {
        return Skipped;
      }
      lock := true;
      var raised := rows.AppendRows(env, DropFirst(page));
      if raised {
        return Raised;
      }
      var last := LastId(rows.tweets);
      if last.None? {
        return Raised;
      }
      max := last;
      lock := false;
      return Completed;
    }
  }

  /** The timeline model of comments. It loads a first page and older pages exactly as the
      status model does, and differs in loading newer comments: it checks the guard but never
      takes it, so a load that raises leaves the guard free. */
  class TweetCommentModel {
    const base: TweetCommonModel

    constructor ()
      ensures fresh(base) && fresh(base.rows) && base.rows.tweets == []
      ensures !base.lock && base.since == None && base.max == None
    {
      base := new TweetCommonModel();
    }

    method GetThread(env: Collaborators, page: seq<Record>) returns (outcome: Outcome)
      modifies base, base.rows
      ensures old(base.lock) ==> outcome == Skipped && unchanged(base, base.rows)
      ensures !old(base.lock) ==>
                base.rows.tweets ==
                  old(base.rows.tweets) + Items(page[..ConstructedPrefix(env, page)])
      ensures !old(base.lock) ==>
                (outcome == Completed <==>
                   ConstructedPrefix(env, page) == |page| &&
                   FirstId(base.rows.tweets).Some? && LastId(base.rows.tweets).Some?)
      ensures !old(base.lock) ==> outcome != Skipped && (base.lock <==> outcome == Raised)
      ensures !old(base.lock) ==>
                base.since == if ConstructedPrefix(env, page) == |page| &&
                                 FirstId(base.rows.tweets).Some?
                              then FirstId(base.rows.tweets) else old(base.since)
      ensures !old(base.lock) ==>
                base.max == if outcome == Completed then LastId(base.rows.tweets)
                            else old(base.max)
    {
      outcome := base.GetThread(env, page);
    }

    /** Loads the comments newer than the newest row, laid out as for statuses, without ever
        setting the guard. */
    method NewThread(env: Collaborators, page: seq<Record>) returns (outcome: Outcome)
      modifies base, base.rows
      ensures old(base.lock) ==> outcome == Skipped && unchanged(base, base.rows)
      ensures !old(base.lock) ==>
                base.rows.tweets ==
                  Items(page[|page| - ConstructedPrefix(env, Reversed(page))..])
                  + old(base.rows.tweets)
      ensures !old(base.lock) ==>
                (outcome == Completed <==>
                   ConstructedPrefix(env, Reversed(page)) == |page| &&
                   FirstId(base.rows.tweets).Some?)
      ensures !old(base.lock) && outcome == Completed ==>
                base.rows.tweets == Items(page) + old(base.rows.tweets)
      ensures !old(base.lock) ==> outcome != Skipped && !base.lock
      ensures !old(base.lock) ==>
                base.since == if outcome == Completed then FirstId(base.rows.tweets)
                               else old(base.since)
      ensures base.max == old(base.max)
    {
      if base.lock {
        return Skipped;
      }
      ghost var before := base.rows.tweets;
      var raised := base.rows.InsertRows(env, 0, Reversed(page));
      PrependReversed(page, ConstructedPrefix(env, Reversed(page)), before);
      var first := FirstId(base.rows.tweets);
      if raised || first.None? {
        outcome := Raised;
      } else {
        base.since := first;
        base.lock := false;
        outcome := Completed;
      }
    }

    method OldThread(env: Collaborators, page: seq<Record>) returns (outcome: Outcome)
      modifies base, base.rows
      ensures old(base.lock) ==> outcome == Skipped && unchanged(base, base.rows)
      ensures !old(base.lock) ==>
                base.rows.tweets ==
                  old(base.rows.tweets) +
                  Items(DropFirst(page)[..ConstructedPrefix(env, DropFirst(page))])
      ensures !old(base.lock) ==>
                (outcome == Completed <==>
                   ConstructedPrefix(env, DropFirst(page)) == |DropFirst(page)| &&
                   LastId(base.rows.tweets).Some?)
      ensures !old(base.lock) ==> outcome != Skipped && (base.lock <==> outcome == Raised)
      ensures !old(base.lock) ==>
                base.max == if outcome == Completed then LastId(base.rows.tweets)
                            else old(base.max)
      ensures base.since == old(base.since)
    {
      outcome := base.OldThread(env, page);
    }
  }

  /** A status model whose first refresh finds nothing to show (an empty page on an empty
      list) raises while it holds the guard, so every later load is skipped. */
  method FailedRefreshBlocksLaterLoads(env: Collaborators, page: seq<Record>)
    returns (first: Outcome, later: Outcome)
    ensures first == Raised && later == Skipped
  {
    var model := new TweetCommonModel();
    first := model.NewThread(env, []);
    later := model.GetThread(env, page);
  }

  /** The same failed refresh on a comment model leaves the guard free, so a later load
      proceeds. */
  method FailedCommentRefreshLeavesGuardFree(env: Collaborators, page: seq<Record>)
    returns (first: Outcome, later: Outcome)
    ensures first == Raised && later != Skipped
  {
    var model := new TweetCommentModel();
    first := model.NewThread(env, []);
    later := model.GetThread(env, page);
  }

  /** A first page holding a status whose author is null raises while that status is
      wrapped: nothing is shown, no id is recorded, and the guard stays taken, so every later
      load is skipped. */
  method UnwrappableStatusBlocksLaterLoads(env: Collaborators, page: seq<Record>)
    returns (first: Outcome, later: Outcome, shown: seq<TweetItem>, since: Option<int>)
    ensures first == Raised && later == Skipped
    ensures shown == [] && since == None
  {
    var model := new TweetCommonModel();
    var authorless := map["idstr" := Value.Text("1"), "mid" := Value.Text("5"), "user" := Null];
    first := model.GetThread(env, [authorless]);
    later := model.NewThread(env, page);
    shown, since := model.rows.tweets, model.since;
  }

  /** The same status arriving in a comment refresh raises as well, but leaves the guard free,
      so a later load proceeds. */
  method UnwrappableCommentLeavesGuardFree(env: Collaborators, page: seq<Record>)
    returns (first: Outcome, later: Outcome)
    ensures first == Raised && later != Skipped
  {
    var model := new TweetCommentModel();
    var authorless := map["idstr" := Value.Text("1"), "mid" := Value.Text("5"), "user" := Null];
    first := model.NewThread(env, [authorless]);
    later := model.GetThread(env, page);
  }
}
