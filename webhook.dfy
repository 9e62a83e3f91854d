/** What is sent to the Discord webhook: the post title, the embed
    description with its "Continue reading" link, and the request body, whose
    optional keys appear only when the matching setting (or image) is set. */
module Webhook {
  import opened Js
  import opened Config

  /** A JSON value as `JSON.stringify` writes it; keys whose value is
      undefined are absent. */
  datatype Json = Str(s: string) | Obj(fields: map<string, Json>) | Arr(items: seq<Json>)

  /** The PREPEND value that asks for the feed's own title. */
  const FeedTitleToken: string := "{FEEDTITLE}"

  /** The title of the embed: the item title, prefixed by the feed title and
      an em dash when PREPEND is `{FEEDTITLE}`, by PREPEND and a space when it
      is anything else, and left alone when PREPEND is not set. */
  function FullTitle(prepend: Option<string>, feedTitle: string, title: string): (r: string)
    ensures |r| >= |title| && r[|r| - |title|..] == title
  {
    if !Truthy(prepend) then title
    else if prepend.value == FeedTitleToken then feedTitle + " \U{2014} " + title
    else prepend.value + " " + title
  }

  /** The title is the item title verbatim exactly when PREPEND is not set;
      otherwise what precedes it ends in a space. */
  lemma FullTitleVerbatim(prepend: Option<string>, feedTitle: string, title: string)
    ensures var r := FullTitle(prepend, feedTitle, title);
      (r == title <==> !Truthy(prepend)) &&
      (Truthy(prepend) ==> |r| > |title| && r[|r| - |title| - 1] == ' ')
  {
    var r := FullTitle(prepend, feedTitle, title);
    if Truthy(prepend) {
      if prepend.value == FeedTitleToken {
        assert r == (feedTitle + " \U{2014}") + " " + title;
      }
    }
  }

  /** With PREPEND set to `{FEEDTITLE}` the title is the feed title, a
      spaced em dash and the item title; with any other set value it is that
      value, one space and the item title. Nothing else is in between. */
  lemma FullTitlePrefix(prepend: Option<string>, feedTitle: string, title: string)
    requires Truthy(prepend)
    ensures var r := FullTitle(prepend, feedTitle, title);
      var p := if prepend.value == FeedTitleToken then feedTitle else prepend.value;
      var sep := if prepend.value == FeedTitleToken then " \U{2014} " else " ";
      |r| == |p| + |sep| + |title| && r[..|p|] == p &&
      r[|p|..|p| + |sep|] == sep && r[|p| + |sep|..] == title
  {
  }

  /** The bold link that ends every description. */
  function ContinueLink(url: string): string {
    "**[Continue reading \U{2192}](" + url + ")**"
  }

  /** The embed description: the summary and ` ...` on a line of their own
      when the summary is not empty, then the link to the item. */
  function Description(content: string, url: string): (r: string)
    ensures content == [] ==> r == ContinueLink(url)
    ensures content != [] ==> |r| == |content| + 5 + |ContinueLink(url)| && r[..|content|] == content
    ensures content != [] ==> r[|content|..|content| + 5] == " ...\n"
    ensures |r| >= |ContinueLink(url)| && r[|r| - |ContinueLink(url)|..] == ContinueLink(url)
  {
    (if |content| > 0 then content + " ...\n" else "") + ContinueLink(url)
  }

  /** Different summaries give different descriptions: the summary can be
      read back from the description. */
  lemma DescriptionInjective(c1: string, c2: string, url: string)
    requires Description(c1, url) == Description(c2, url)
    ensures c1 == c2
  {
    var d := Description(c1, url);
    if c1 != [] && c2 != [] {
      assert c1 == d[..|c1|] == c2;
    }
  }

  /** The values `postToWebhook` receives for one item. */
  datatype Post = Post(
    creator: Option<string>,
    title: string,
    url: string,
    content: string,
    timestamp: string,
    fullTitle: string,
    image: Option<string>
  )

  /** `if (v) m[key] = v` */
  function SetIfTruthy(m: map<string, Json>, key: string, v: Option<string>): (r: map<string, Json>)
    ensures r.Keys == if Truthy(v) then m.Keys + {key} else m.Keys
    ensures forall k | k in m && k != key :: k in r && r[k] == m[k]
    ensures Truthy(v) ==> key in r && r[key] == Str(v.value)
  {
    if Truthy(v) then m[key := Str(v.value)] else m
  }

  /** `FOOTER_TEXT || creator` */
  function FooterText(env: Settings, creator: Option<string>): Option<string> {
    if Truthy(env.footerText) then env.footerText else creator
  }

  /** The footer object: its text when defined, its icon when configured. */
  function Footer(post: Post, env: Settings): map<string, Json> {
    var text := FooterText(env, post.creator);
    var footer := if text.Some? then map["text" := Str(text.value)] else map[];
    SetIfTruthy(footer, "icon_url", env.footerIcon)
  }

  /** The embed object. */
  function Embed(post: Post, env: Settings): map<string, Json> {
    var embed := map[
      "url" := Str(post.url),
      "timestamp" := Str(post.timestamp),
      "title" := Str(post.fullTitle),
      "description" := Str(Description(post.content, post.url)),
      "footer" := Obj(Footer(post, env))];
    var embed := SetIfTruthy(embed, "color", env.color);
    if Truthy(post.image) then embed["image" := Obj(map["url" := Str(post.image.value)])] else embed
  }

  /** The webhook options: user name, avatar and message text when set. */
  function Options(env: Settings): map<string, Json> {
    SetIfTruthy(SetIfTruthy(SetIfTruthy(map[], "username", env.username), "avatar_url", env.avatar),
                "content", env.content)
  }

  /** `{ ...options, embeds: [embed] }` */
  function Payload(post: Post, env: Settings): Json {
    Obj(Options(env)["embeds" := Arr([Obj(Embed(post, env))])])
  }

  /** Builds the request body as `postToWebhook` does: the embed and an empty
      options object first, then each optional key added in turn. */
  method BuildPayload(post: Post, env: Settings) returns (body: Json)
    ensures body == Payload(post, env)
  {
    var text := FooterText(env, post.creator);
    var footer: map<string, Json> := if text.Some? then map["text" := Str(text.value)] else map[];
    var embed: map<string, Json> := map[
      "url" := Str(post.url),
      "timestamp" := Str(post.timestamp),
      "title" := Str(post.fullTitle),
      "description" := Str(Description(post.content, post.url))];
    var options: map<string, Json> := map[];
    if Truthy(env.username) {
      options := options["username" := Str(env.username.value)];
    }
    if Truthy(env.avatar) {
      options := options["avatar_url" := Str(env.avatar.value)];
    }
    if Truthy(env.content) {
      options := options["content" := Str(env.content.value)];
    }
    if Truthy(env.footerIcon) {
      footer := footer["icon_url" := Str(env.footerIcon.value)];
    }
    embed := embed["footer" := Obj(footer)];
    if Truthy(env.color) {
      embed := embed["color" := Str(env.color.value)];
    }
    if Truthy(post.image) {
      embed := embed["image" := Obj(map["url" := Str(post.image.value)])];
    }
    body := Obj(options["embeds" := Arr([Obj(embed)])]);
  }

  /** `{k}` when `b`, else nothing. */
  function KeyIf(b: bool, k: string): set<string> {
    if b then {k} else {}
  }

  /** Each optional top-level key is present exactly when its setting is
      set, and no other key is ever added. */
  lemma PayloadKeys(post: Post, env: Settings)
    ensures Payload(post, env).fields.Keys ==
      {"embeds"} + KeyIf(Truthy(env.username), "username") + KeyIf(Truthy(env.avatar), "avatar_url")
      + KeyIf(Truthy(env.content), "content")
  {
    var o1 := SetIfTruthy(map[], "username", env.username);
    var o2 := SetIfTruthy(o1, "avatar_url", env.avatar);
    assert Options(env).Keys == o2.Keys + KeyIf(Truthy(env.content), "content");
  }

  /** The embed always has its five fixed keys; `color` and `image` are
      present exactly when COLOR and the image are set. */
  lemma EmbedKeys(post: Post, env: Settings)
    ensures Embed(post, env).Keys ==
      {"url", "timestamp", "title", "description", "footer"} + KeyIf(Truthy(env.color), "color")
      + KeyIf(Truthy(post.image), "image")
  {
  }

  /** The footer has its text exactly when FOOTER_TEXT or the creator is
      defined, and its icon exactly when FOOTER_ICON is set. */
  lemma FooterKeys(post: Post, env: Settings)
    ensures Footer(post, env).Keys ==
      KeyIf(FooterText(env, post.creator).Some?, "text") + KeyIf(Truthy(env.footerIcon), "icon_url")
  {
  }

  /** The footer text is FOOTER_TEXT when set, the item's creator otherwise,
      and absent when neither is defined. */
  lemma FooterTextFallback(post: Post, env: Settings)
    ensures Truthy(env.footerText) ==> Footer(post, env)["text"] == Str(env.footerText.value)
    ensures !Truthy(env.footerText) && post.creator.Some? ==> Footer(post, env)["text"] == Str(post.creator.value)
    ensures !Truthy(env.footerText) && post.creator.None? ==> "text" !in Footer(post, env)
  {
  }

  /** The request body holds exactly one embed, whose link and timestamp are
      the post's. */
  lemma PayloadEmbed(post: Post, env: Settings)
    ensures var b := Payload(post, env);
      "embeds" in b.fields && b.fields["embeds"] == Arr([Obj(Embed(post, env))])
    ensures var e := Embed(post, env);
      "url" in e && "timestamp" in e && e["url"] == Str(post.url) && e["timestamp"] == Str(post.timestamp)
  {
  }

  /** The embed carries the item's link, timestamp, title and description,
      and the image URL when there is one. */
  lemma EmbedValues(post: Post, env: Settings)
    ensures var e := Embed(post, env);
      e["url"] == Str(post.url) && e["timestamp"] == Str(post.timestamp) &&
      e["title"] == Str(post.fullTitle) && e["description"] == Str(Description(post.content, post.url)) &&
      (Truthy(post.image) ==> e["image"] == Obj(map["url" := Str(post.image.value)]))
  {
  }
}
