/** Feed items and the rule that decides which one is posted next.
    Timestamps are ISO-8601 strings that are already normalised, so
    comparing them as JavaScript strings compares the instants. */
module Feed {
  import opened Js

  /** One parsed feed entry, with the fields the relay reads. `encoded` is
      the `content:encoded` HTML body, which a feed may lack. */
  datatype Item = Item(
    creator: Option<string>,
    title: string,
    link: string,
    encoded: Option<string>,
    isoDate: string
  )

  /** A parsed feed: its own title and its items, newest first. */
  datatype FeedData = FeedData(title: string, items: seq<Item>)

  /** An item is new when its timestamp is strictly later than the watermark. */
  predicate IsNew(item: Item, lastpost: string) {
    Less(lastpost, item.isoDate)
  }

  /** The index the backwards scan stops at: the highest index holding a new
      item, or -1 when no item is new. */
  function LastNewIndex(items: seq<Item>, lastpost: string): (k: int)
    ensures -1 <= k < |items|
    ensures k >= 0 ==> IsNew(items[k], lastpost)
    ensures forall j | k < j < |items| :: !IsNew(items[j], lastpost)
  {
    if items == [] then -1
    else if IsNew(items[|items| - 1], lastpost) then |items| - 1
    else LastNewIndex(items[..|items| - 1], lastpost)
  }

  /** The item the next cycle posts, if any. */
  function Selected(items: seq<Item>, lastpost: string): (r: Option<Item>)
    ensures r.Some? ==> r.value in items && IsNew(r.value, lastpost)
  {
    var k := LastNewIndex(items, lastpost);
    if k < 0 then None else Some(items[k])
  }

  /** Nothing is selected exactly when no item is strictly later than the
      watermark; a selected item is always strictly later than it. */
  lemma SelectedIsNew(items: seq<Item>, lastpost: string)
    ensures Selected(items, lastpost).None? <==> forall i | 0 <= i < |items| :: !IsNew(items[i], lastpost)
    ensures Selected(items, lastpost).Some? ==> Less(lastpost, Selected(items, lastpost).value.isoDate)
  {
  }

  /** Newest first: no item is older than an item after it. */
  predicate NewestFirst(items: seq<Item>) {
    forall i, j | 0 <= i < j < |items| :: !Less(items[i].isoDate, items[j].isoDate)
  }

  /** Strictly newest first: every item is newer than every item after it. */
  predicate StrictlyNewestFirst(items: seq<Item>) {
    forall i, j | 0 <= i < j < |items| :: Less(items[j].isoDate, items[i].isoDate)
  }

  /** In a newest-first feed the selected item is the oldest new item, not
      the newest one. */
  lemma {:induction false} SelectedIsOldestNew(items: seq<Item>, lastpost: string)
    requires NewestFirst(items)
    requires Selected(items, lastpost).Some?
    ensures forall i | 0 <= i < |items| && IsNew(items[i], lastpost) ::
      !Less(items[i].isoDate, Selected(items, lastpost).value.isoDate)
  {
    var k := LastNewIndex(items, lastpost);
    forall i | 0 <= i < |items| && IsNew(items[i], lastpost)
      ensures !Less(items[i].isoDate, items[k].isoDate)
    {
      if i == k {
        LessIrreflexive(items[k].isoDate);
      }
    }
  }

  /** Once the selected item of a strictly newest-first feed is posted and
      the watermark moves to its timestamp, the following cycle selects the
      item just before it in the list (the next newer one), or nothing when it
      was the newest. So an unchanged feed without tied timestamps is drained
      oldest first, one item per cycle, each new item exactly once; with ties,
      `NextCycleSkipsTies` shows that items are lost. */
  lemma {:induction false} NextCycleSelectsNextNewer(items: seq<Item>, lastpost: string)
    requires StrictlyNewestFirst(items)
    requires LastNewIndex(items, lastpost) >= 0
    ensures var k := LastNewIndex(items, lastpost);
      LastNewIndex(items, items[k].isoDate) == k - 1
  {
    var k := LastNewIndex(items, lastpost);
    var k' := LastNewIndex(items, items[k].isoDate);
    if k' >= k {
      if k' == k {
        LessIrreflexive(items[k].isoDate);
      } else {
        assert Less(items[k'].isoDate, items[k].isoDate);
        assert Less(items[k].isoDate, items[k'].isoDate);
        LessTransitive(items[k].isoDate, items[k'].isoDate, items[k].isoDate);
        LessIrreflexive(items[k].isoDate);
      }
    }
    if k >= 1 {
      assert IsNew(items[k - 1], items[k].isoDate);
    }
  }

  /** The general step, ties allowed: once the selected item of a
      newest-first feed is posted and the watermark moves to its timestamp,
      the following cycle selects an earlier-listed item whose timestamp
      differs, and every item listed between the two, the posted one
      included, carries the posted timestamp. Items tied with the posted one
      are therefore passed over. */
  lemma {:induction false} NextCycleSkipsTies(items: seq<Item>, lastpost: string)
    requires NewestFirst(items)
    requires LastNewIndex(items, lastpost) >= 0
    ensures var k := LastNewIndex(items, lastpost);
      var k' := LastNewIndex(items, items[k].isoDate);
      k' < k &&
      (forall j | k' < j <= k :: items[j].isoDate == items[k].isoDate) &&
      (k' >= 0 ==> items[k'].isoDate != items[k].isoDate)
  {
    var k := LastNewIndex(items, lastpost);
    var d := items[k].isoDate;
    var k' := LastNewIndex(items, d);
    if k' == k {
      LessIrreflexive(d);
    }
    forall j | k' < j <= k
      ensures items[j].isoDate == d
    {
      if j < k && items[j].isoDate != d {
        assert !Less(items[j].isoDate, d);
        assert !IsNew(items[j], d);
        LessTotal(items[j].isoDate, d);
        assert false;
      }
    }
    if k' >= 0 {
      LessIrreflexive(d);
    }
  }

  /** An item whose timestamp equals the watermark, or is older, is not new
      under that watermark or any later one: once passed over, a tied item
      is never selected again. */
  lemma {:induction false} PassedOverStaysOld(item: Item, d: string, w: string)
    requires item.isoDate == d
    requires w == d || Less(d, w)
    ensures !IsNew(item, w)
  {
    LessIrreflexive(d);
    if Less(d, w) && Less(w, d) {
      LessTransitive(d, w, d);
    }
  }

  /** Three items dated 3, 2 and 2 January, newest first, with the watermark
      at 1 January: the last-listed item is posted first, the first-listed
      one next, and then nothing; the middle item is never selected. */
  lemma {:induction false} TiedItemNeverSelected(a: Item, b: Item, c: Item)
    requires a.isoDate == "2023-01-03T00:00:00.000Z"
    requires b.isoDate == "2023-01-02T00:00:00.000Z"
    requires c.isoDate == "2023-01-02T00:00:00.000Z"
    ensures LastNewIndex([a, b, c], "2023-01-01T00:00:00.000Z") == 2
    ensures LastNewIndex([a, b, c], c.isoDate) == 0
    ensures LastNewIndex([a, b, c], a.isoDate) == -1
  {
    LessAtFirstDifference("2023-01-01T00:00:00.000Z", c.isoDate, 9);
    LessAtFirstDifference(c.isoDate, a.isoDate, 9);
    TiedScan(a, b, c, "2023-01-01T00:00:00.000Z");
  }

  /** The scans of `TiedItemNeverSelected`, over timestamps ordered only by
      the facts they need. */
  lemma {:induction false} TiedScan(a: Item, b: Item, c: Item, w: string)
    requires b.isoDate == c.isoDate
    requires Less(w, c.isoDate) && Less(c.isoDate, a.isoDate)
    ensures LastNewIndex([a, b, c], w) == 2
    ensures LastNewIndex([a, b, c], c.isoDate) == 0
    ensures LastNewIndex([a, b, c], a.isoDate) == -1
  {
    var items := [a, b, c];
    assert items[..2] == [a, b] && [a, b][..1] == [a];
    LessIrreflexive(c.isoDate);
    LessIrreflexive(a.isoDate);
    PassedOverStaysOld(c, c.isoDate, a.isoDate);
    PassedOverStaysOld(b, c.isoDate, a.isoDate);
    assert LastNewIndex([a], c.isoDate) == 0;
    assert LastNewIndex([a, b], c.isoDate) == 0;
    assert LastNewIndex([a], a.isoDate) == -1;
    assert LastNewIndex([a, b], a.isoDate) == -1;
  }

  /** With the watermark at the timestamp of the newest item, nothing is
      selected: a cycle that finds no new upstream item posts nothing. */
  lemma {:induction false} CaughtUpSelectsNothing(items: seq<Item>)
    requires NewestFirst(items) && items != []
    ensures Selected(items, items[0].isoDate).None?
  {
    forall i | 0 <= i < |items|
      ensures !IsNew(items[i], items[0].isoDate)
    {
      if i == 0 {
        LessIrreflexive(items[0].isoDate);
      }
    }
  }

  /** With the watermark at midnight on 1 January 2023 and a feed holding the
      items of 3 and 2 January, newest first, the item of 2 January is
      selected. */
  lemma SelectsOldestOfTwo(newer: Item, older: Item)
    requires newer.isoDate == "2023-01-03T00:00:00.000Z"
    requires older.isoDate == "2023-01-02T00:00:00.000Z"
    ensures Selected([newer, older], "2023-01-01T00:00:00.000Z") == Some(older)
  {
    LessAtFirstDifference("2023-01-01T00:00:00.000Z", older.isoDate, 9);
  }
}
