/** One polling cycle of the relay: pick the next item newer than the
    watermark, turn it into a webhook request, and move the watermark to the
    item's timestamp once the request resolves. */
module Poller {
  import opened Js
  import opened Config
  import opened Feed
  import opened Summary
  import opened Images
  import opened Webhook

  /** The values handed to `postToWebhook` for `item` of a feed titled
      `feedTitle`, whose HTML body is `raw`. `text` flattens the parsed body to
      text, `trimCut` applies TRIM_REGEX, and `firstImg` gives the attributes
      of the first `<img>` of the parsed body, if any. */
  function PostFor(feedTitle: string, item: Item, raw: string, env: Settings,
                   text: string -> string, trimCut: string -> string,
                   firstImg: string -> Option<Attributes>): Post {
    Post(item.creator, item.title, item.link,
         SummaryText(raw, item.link, env, text, trimCut),
         item.isoDate,
         FullTitle(env.prepend, feedTitle, item.title),
         PickImage(firstImg(Emphasize(raw))))
  }

  /** The request body a cycle sends with watermark `lastpost`: none when no
      item is new, and none when the selected item has no HTML body (the
      replace on it throws and the cycle ends). */
  function CycleBody(feed: FeedData, env: Settings, text: string -> string, trimCut: string -> string,
                     firstImg: string -> Option<Attributes>, lastpost: string): Option<Json> {
    match Selected(feed.items, lastpost)
    case None => None
    case Some(item) =>
      if item.encoded.None? then None
      else Some(Payload(PostFor(feed.title, item, item.encoded.value, env, text, trimCut, firstImg), env))
  }

  /** A cycle sends a request exactly when some item is newer than the
      watermark and the selected one has a body; the request then carries
      one embed, with the selected item's link and timestamp. */
  lemma CycleSendsSelected(feed: FeedData, env: Settings, text: string -> string, trimCut: string -> string,
                           firstImg: string -> Option<Attributes>, lastpost: string)
    ensures var b := CycleBody(feed, env, text, trimCut, firstImg, lastpost);
      var s := Selected(feed.items, lastpost);
      (b.Some? <==> s.Some? && s.value.encoded.Some?) &&
      (b.Some? ==> Less(lastpost, s.value.isoDate)) &&
      (b.Some? ==> (
        "embeds" in b.value.fields && b.value.fields["embeds"].Arr? &&
        |b.value.fields["embeds"].items| == 1 &&
        var e := b.value.fields["embeds"].items[0];
        e.Obj? && "url" in e.fields && "timestamp" in e.fields &&
        e.fields["url"] == Str(s.value.link) && e.fields["timestamp"] == Str(s.value.isoDate)))
  {
    var s := Selected(feed.items, lastpost);
    SelectedIsNew(feed.items, lastpost);
    if s.Some? && s.value.encoded.Some? {
      var p := PostFor(feed.title, s.value, s.value.encoded.value, env, text, trimCut, firstImg);
      PayloadEmbed(p, env);
    }
  }

  /** The relay's state between cycles: the timestamp of the last item
      posted (the watermark). */
  class Poller {
    var lastpost: string

    /** The watermark read at start-up, or the start time when it is empty. */
    constructor(stored: string, now: string)
      ensures lastpost == if stored != "" then stored else now
    {
      lastpost := if stored != "" then stored else now;
    }

    /** Scans the items from the last (oldest) to the first and returns the
        first one strictly newer than the watermark. */
    method GetNextItem(items: seq<Item>) returns (item: Option<Item>)
      ensures item == Selected(items, lastpost)
    {
      item := None;
      var i := |items| - 1;
      while i >= 0
        invariant -1 <= i < |items|
        invariant forall j | i < j < |items| :: !IsNew(items[j], lastpost)
        decreases i + 1
      {
        if Less(lastpost, items[i].isoDate) {
          item := Some(items[i]);
          break;
        }
        i := i - 1;
      }
    }

    /** The webhook request resolved, whatever its status: the watermark
        becomes the posted item's timestamp. */
    method Resolved(timestamp: string)
      modifies this
      ensures lastpost == timestamp
    {
      lastpost := timestamp;
    }

    /** One cycle on a fetched feed. `resolves` says whether the webhook
        request resolved (any HTTP status) or was rejected. Returns the body
        sent, if any. The watermark only ever moves forward. */
    method CheckFeed(feed: FeedData, env: Settings, text: string -> string, trimCut: string -> string,
                     firstImg: string -> Option<Attributes>, resolves: bool) returns (sent: Option<Json>)
      modifies this
      ensures sent == CycleBody(feed, env, text, trimCut, firstImg, old(lastpost))
      ensures lastpost == if sent.Some? && resolves then Selected(feed.items, old(lastpost)).value.isoDate
                          else old(lastpost)
      ensures lastpost == old(lastpost) || Less(old(lastpost), lastpost)
    {
      if |feed.items| == 0 {
        return None;
      }
      var next := GetNextItem(feed.items);
      if next.None? {
        return None;
      }
      var item := next.value;
      if item.encoded.None? {
        return None;
      }
      var raw := item.encoded.value;
      var url := item.link;
      var timestamp := item.isoDate;
      var fullTitle := FullTitle(env.prepend, feed.title, item.title);
      var content := Summarize(raw, url, env, text, trimCut);
      var image := PickImage(firstImg(Emphasize(raw)));
      var body := BuildPayload(Post(item.creator, item.title, url, content, timestamp, fullTitle, image), env);
      sent := Some(body);
      SelectedIsNew(feed.items, lastpost);
      if resolves {
        Resolved(timestamp);
      }
    }
  }
}
