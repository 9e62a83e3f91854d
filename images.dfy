/** The picture attached to a post: the first `<img>` of the item body,
    taken from its `srcset` when that is set, otherwise from its `src`. */
module Images {
  import opened Js

  /** The attributes of an element, by name. */
  type Attributes = map<string, string>

  /** `element.attr(name)`: undefined when the attribute is absent. */
  function Attr(attrs: Attributes, name: string): (r: Option<string>)
    ensures r.Some? <==> name in attrs
    ensures r.Some? ==> r.value == attrs[name]
  {
    if name in attrs then Some(attrs[name]) else None
  }

  /** Length of the maximal run of `[\w,]` characters at the start of `s`. */
  function WordRun(s: string): (n: nat)
    ensures n <= |s|
    ensures forall i | 0 <= i < n :: IsWordOrComma(s[i])
    ensures n == |s| || !IsWordOrComma(s[n])
  {
    if s != [] && IsWordOrComma(s[0]) then 1 + WordRun(s[1..]) else 0
  }

  /** Length of the match of `\s+(\d+[\w,]+)` at the start of `s`, 0 if
      none. `\s+` can only end where white space ends, since a digit is not
      white space; `\d+[\w,]+` then takes the whole `[\w,]` run, which must
      start with a digit and be at least two characters long. */
  function DescriptorMatch(s: string): (n: nat)
    ensures n <= |s|
    ensures n > 0 ==> IsSpace(s[0])
  {
    var ws := SpaceRun(s);
    if 0 < ws < |s| && IsDigit(s[ws]) && WordRun(s[ws..]) >= 2 then ws + WordRun(s[ws..]) else 0
  }

  /** `srcset.replace(/\s+(\d+[\w,]+)/g, '')`: scanning left to right, each
      match is removed; where nothing matches, one character is kept. A
      match starts with white space, so any other character is kept at
      once. */
  function StripDescriptors(s: string): (r: string)
    ensures |r| <= |s|
    decreases |s|
  {
    if s == [] then []
    else if !IsSpace(s[0]) then [s[0]] + StripDescriptors(s[1..])
    else if DescriptorMatch(s) > 0 then StripDescriptors(s[DescriptorMatch(s)..])
    else [s[0]] + StripDescriptors(s[1..])
  }

  predicate NoSpace(s: string) {
    forall i | 0 <= i < |s| :: !IsSpace(s[i])
  }

  /** Length of the maximal run of characters other than `\s` at the end
      of `s`. */
  function TrailWord(s: string): (n: nat)
    ensures n <= |s|
  {
    if s != [] && !IsSpace(s[|s| - 1]) then 1 + TrailWord(s[..|s| - 1]) else 0
  }

  /** `s.split(/\s+/).pop()`: what follows the last white-space character,
      empty when `s` ends in white space. */
  function LastToken(s: string): string {
    s[|s| - TrailWord(s)..]
  }

  /** The token is a suffix of `s` without white space, and either all of
      `s` or preceded by white space: it is the whole last token, not part
      of one. */
  lemma {:induction false} LastTokenShape(s: string)
    ensures var r := LastToken(s);
      r == s[|s| - |r|..] && NoSpace(r) && (|r| == |s| || IsSpace(s[|s| - |r| - 1]))
  {
    if s != [] && !IsSpace(s[|s| - 1]) {
      var p := s[..|s| - 1];
      LastTokenShape(p);
      var n := TrailWord(p);
      var r := LastToken(p);
      assert LastToken(s) == r + [s[|s| - 1]];
      if n < |p| {
        assert s[|s| - n - 2] == p[|p| - n - 1];
      }
    }
  }

  /** The image URL sent with the post, from the first `<img>` of the body
      (None when the body has no image or the attribute is missing). */
  function PickImage(img: Option<Attributes>): (r: Option<string>)
    ensures img.None? ==> r.None?
    ensures img.Some? && Truthy(Attr(img.value, "srcset")) ==> r.Some? && NoSpace(r.value)
    ensures img.Some? && !Truthy(Attr(img.value, "srcset")) ==> r == Attr(img.value, "src")
  {
    match img
    case None => None
    case Some(attrs) =>
      var srcset := Attr(attrs, "srcset");
      if Truthy(srcset) then
        var v := StripDescriptors(srcset.value);
        LastTokenShape(v);
        Some(LastToken(v))
      else Attr(attrs, "src")
  }

  // ---------------------------------------------------------------------
  // The `srcset` format and what the pick makes of it
  // ---------------------------------------------------------------------

  /** One image candidate of a `srcset`: a URL and its width or density
      descriptor. */
  datatype Candidate = Candidate(url: string, descriptor: string)

  /** A descriptor the pattern removes: a digit, then at least one more
      character of `[\w,]` (`480w`, `2x`). */
  predicate IsDescriptor(d: string) {
    |d| >= 2 && IsDigit(d[0]) && forall i | 0 <= i < |d| :: IsWordOrComma(d[i])
  }

  /** A candidate whose URL has no white space and does not start with a
      digit, and whose descriptor the pattern removes. */
  predicate WellFormed(c: Candidate) {
    c.url != [] && NoSpace(c.url) && !IsDigit(c.url[0]) && IsDescriptor(c.descriptor)
  }

  /** The attribute value: `url descriptor` entries separated by `, `. */
  function Srcset(cs: seq<Candidate>): string
    decreases |cs|
  {
    if |cs| == 0 then ""
    else cs[0].url + (" " + (cs[0].descriptor + (if |cs| == 1 then "" else ", " + Srcset(cs[1..]))))
  }

  /** The URLs of the candidates, in order. */
  function Urls(cs: seq<Candidate>): (us: seq<string>)
    ensures |us| == |cs| && forall i | 0 <= i < |cs| :: us[i] == cs[i].url
  {
    seq(|cs|, i requires 0 <= i < |cs| => cs[i].url)
  }

  lemma DigitNotSpace(c: char)
    requires IsDigit(c)
    ensures !IsSpace(c) && IsWordOrComma(c)
  {
  }

  lemma {:induction false} WordRunAppend(a: string, b: string)
    requires forall i | 0 <= i < |a| :: IsWordOrComma(a[i])
    ensures WordRun(a + b) == |a| + WordRun(b)
  {
    if a != [] {
      assert (a + b)[0] == a[0] && IsWordOrComma(a[0]);
      assert (a + b)[1..] == a[1..] + b;
      WordRunAppend(a[1..], b);
    } else {
      assert a + b == b;
    }
  }

  /** Where the scan stands on a character that is not white space, nothing
      is removed. */
  lemma StripKeepsHead(s: string)
    requires s != [] && !IsSpace(s[0])
    ensures StripDescriptors(s) == [s[0]] + StripDescriptors(s[1..])
  {
  }

  lemma NoSpaceTail(a: string)
    requires a != [] && NoSpace(a)
    ensures !IsSpace(a[0]) && NoSpace(a[1..])
  {
    assert forall i | 0 <= i < |a| - 1 :: a[1..][i] == a[i + 1];
  }

  /** Text without white space passes through unchanged. */
  lemma {:induction false} StripText(a: string, b: string)
    requires NoSpace(a)
    ensures StripDescriptors(a + b) == a + StripDescriptors(b)
    decreases |a|
  {
    if a == [] {
      assert a + b == b;
    } else {
      var s := a + b;
      NoSpaceTail(a);
      assert s[0] == a[0] && s[1..] == a[1..] + b;
      StripKeepsHead(s);
      StripText(a[1..], b);
      assert a == [a[0]] + a[1..];
      Assoc3([a[0]], a[1..], StripDescriptors(b));
    }
  }

  /** The pattern matches a space and a whole descriptor. */
  lemma DescriptorMatchAt(t: string, b: string)
    requires |t| >= 2 && IsDigit(t[0]) && forall i | 0 <= i < |t| :: IsWordOrComma(t[i])
    requires b == [] || !IsWordOrComma(b[0])
    ensures DescriptorMatch(" " + (t + b)) == 1 + |t| && (" " + (t + b))[1 + |t|..] == b
  {
    var s := " " + (t + b);
    DigitNotSpace(t[0]);
    assert s[1] == t[0];
    assert SpaceRun(s) == 1 by {
      assert SpaceRun(s[1..]) == 0;
    }
    assert s[1..] == t + b;
    WordRunAppend(t, b);
    assert WordRun(b) == 0;
    assert s[1 + |t|..] == b;
  }

  /** A space and a descriptor (with the comma after it, if any) are removed
      together. */
  lemma DropDescriptor(t: string, b: string)
    requires |t| >= 2 && IsDigit(t[0]) && forall i | 0 <= i < |t| :: IsWordOrComma(t[i])
    requires b == [] || !IsWordOrComma(b[0])
    ensures StripDescriptors(" " + (t + b)) == StripDescriptors(b)
  {
    DescriptorMatchAt(t, b);
    StripMatch(" " + (t + b), 1 + |t|, b);
  }

  /** Where the pattern matches, the match is removed. */
  lemma StripMatch(s: string, k: nat, b: string)
    requires DescriptorMatch(s) == k && k > 0 && s[k..] == b
    ensures StripDescriptors(s) == StripDescriptors(b)
  {
  }

  /** A space before a URL is kept: the URL does not start with a digit. */
  lemma KeepSpaceBeforeUrl(u: string, b: string)
    requires u != [] && !IsSpace(u[0]) && !IsDigit(u[0])
    ensures StripDescriptors(" " + (u + b)) == " " + StripDescriptors(u + b)
  {
    var s := " " + (u + b);
    assert s[1] == u[0];
    assert SpaceRun(s) == 1 by {
      assert SpaceRun(s[1..]) == 0;
    }
    assert DescriptorMatch(s) == 0;
    assert s[1..] == u + b;
  }

  lemma StripLast(c: Candidate)
    requires WellFormed(c)
    ensures StripDescriptors(Srcset([c])) == c.url
  {
    var u, d := c.url, c.descriptor;
    assert Srcset([c]) == u + (" " + (d + []));
    StripText(u, " " + (d + []));
    DropDescriptor(d, []);
    assert u + [] == u;
  }

  lemma MiddleShape(c: Candidate, rest: seq<Candidate>)
    requires |rest| >= 1
    ensures Srcset([c] + rest) == c.url + (" " + ((c.descriptor + ",") + (" " + Srcset(rest))))
  {
    var cs := [c] + rest;
    assert cs[0] == c && cs[1..] == rest;
    var d, tail := c.descriptor, Srcset(rest);
    assert Srcset(cs) == c.url + (" " + (d + (", " + tail)));
    CommaSpace(d, tail);
  }

  /** Regrouping the comma after a descriptor, kept apart from the lemmas
      that unfold the scan. */
  lemma CommaSpace(d: string, tail: string)
    ensures d + (", " + tail) == (d + ",") + (" " + tail)
  {
    assert ", " + tail == "," + (" " + tail);
    Assoc3(d, ",", " " + tail);
  }

  lemma StripMiddle(c: Candidate, rest: seq<Candidate>)
    requires WellFormed(c) && |rest| >= 1 && WellFormed(rest[0])
    ensures StripDescriptors(Srcset([c] + rest)) == c.url + " " + StripDescriptors(Srcset(rest))
  {
    var u, d := c.url, c.descriptor;
    var tail := Srcset(rest);
    MiddleShape(c, rest);
    StripText(u, " " + ((d + ",") + (" " + tail)));
    assert forall i | 0 <= i < |d + ","| :: IsWordOrComma((d + ",")[i]);
    DropDescriptor(d + ",", " " + tail);
    KeepSpaceBeforeUrl(rest[0].url, tail[|rest[0].url|..]);
    assert tail == rest[0].url + tail[|rest[0].url|..];
    Assoc3(u, " ", StripDescriptors(tail));
  }

  /** For a well-formed `srcset`, removing the descriptors leaves the URLs
      separated by single spaces. */
  lemma {:induction false} StripSrcset(cs: seq<Candidate>)
    requires |cs| >= 1 && forall i | 0 <= i < |cs| :: WellFormed(cs[i])
    ensures StripDescriptors(Srcset(cs)) == Join(Urls(cs), ' ')
  {
    if |cs| == 1 {
      assert cs == [cs[0]];
      StripLast(cs[0]);
    } else {
      var rest := cs[1..];
      assert cs == [cs[0]] + rest;
      StripMiddle(cs[0], rest);
      StripSrcset(rest);
      assert Urls(cs)[1..] == Urls(rest);
    }
  }

  /** A word of `k` characters at the end of `s` that is preceded by white
      space, or that is all of `s`, is the trailing word. */
  lemma {:induction false} TrailWordExact(s: string, k: nat)
    requires k <= |s| && NoSpace(s[|s| - k..])
    requires k == |s| || IsSpace(s[|s| - k - 1])
    ensures TrailWord(s) == k
  {
    if k > 0 {
      var p := s[..|s| - 1];
      assert s[|s| - 1] == s[|s| - k..][k - 1];
      assert p[|p| - (k - 1)..] == s[|s| - k..][..k - 1];
      if k < |s| {
        assert p[|p| - (k - 1) - 1] == s[|s| - k - 1];
      }
      TrailWordExact(p, k - 1);
    }
  }

  /** The last token of a string ending in white space and a word is the word. */
  lemma LastTokenAfterSpace(a: string, c: char, w: string)
    requires IsSpace(c) && NoSpace(w)
    ensures LastToken(a + [c] + w) == w
  {
    var s := a + [c] + w;
    assert s[|s| - |w|..] == w;
    assert s[|s| - |w| - 1] == c;
    TrailWordExact(s, |w|);
  }

  /** A word is its own last token. */
  lemma LastTokenOfWord(w: string)
    requires NoSpace(w)
    ensures LastToken(w) == w
  {
    assert w[0..] == w;
    TrailWordExact(w, |w|);
  }

  /** The last token of words joined by spaces is the last word. */
  lemma LastTokenOfJoin(ws: seq<string>)
    requires |ws| >= 1 && forall i | 0 <= i < |ws| :: NoSpace(ws[i])
    ensures LastToken(Join(ws, ' ')) == ws[|ws| - 1]
  {
    if |ws| == 1 {
      LastTokenOfWord(ws[0]);
    } else {
      JoinSnoc(ws, ' ');
      LastTokenAfterSpace(Join(ws[..|ws| - 1], ' '), ' ', ws[|ws| - 1]);
    }
  }

  lemma PickFromSrcset(attrs: Attributes, v: string)
    requires "srcset" in attrs && attrs["srcset"] == v && v != ""
    ensures PickImage(Some(attrs)) == Some(LastToken(StripDescriptors(v)))
  {
  }

  lemma UrlsNoSpace(cs: seq<Candidate>)
    requires forall i | 0 <= i < |cs| :: WellFormed(cs[i])
    ensures forall i | 0 <= i < |cs| :: NoSpace(Urls(cs)[i])
  {
    forall i | 0 <= i < |cs|
      ensures NoSpace(Urls(cs)[i])
    {
      assert WellFormed(cs[i]);
    }
  }

  /** The last token of the URLs joined by spaces is the last URL. */
  lemma LastUrlOfJoin(cs: seq<Candidate>)
    requires |cs| >= 1 && forall i | 0 <= i < |cs| :: WellFormed(cs[i])
    ensures LastToken(Join(Urls(cs), ' ')) == cs[|cs| - 1].url
  {
    UrlsNoSpace(cs);
    LastTokenOfJoin(Urls(cs));
  }

  /** Removing the descriptors of a well-formed `srcset` and taking the last
      token gives the URL of the last candidate. */
  lemma LastUrlOfSrcset(cs: seq<Candidate>)
    requires |cs| >= 1 && forall i | 0 <= i < |cs| :: WellFormed(cs[i])
    ensures LastToken(StripDescriptors(Srcset(cs))) == cs[|cs| - 1].url
  {
    StripSrcset(cs);
    LastUrlOfJoin(cs);
  }

  /** With a well-formed `srcset`, the image sent is the URL of its last
      candidate (the largest one, in the usual smallest-first order). */
  lemma PickImageFromSrcset(attrs: Attributes, cs: seq<Candidate>)
    requires |cs| >= 1 && forall i | 0 <= i < |cs| :: WellFormed(cs[i])
    requires "srcset" in attrs && attrs["srcset"] == Srcset(cs)
    ensures PickImage(Some(attrs)) == Some(cs[|cs| - 1].url)
  {
    assert |Srcset(cs)| >= 1;
    PickFromSrcset(attrs, Srcset(cs));
    LastUrlOfSrcset(cs);
  }

  /** A density whose integer part is a single digit (`1.5x`) is not
      matched: its `[\w,]` run stops at the dot after one digit. */
  lemma FractionKept(d: string)
    requires NoSpace(d) && |d| >= 2 && IsDigit(d[0]) && d[1] == '.'
    ensures StripDescriptors(" " + d) == " " + d
  {
    var t := " " + d;
    assert t[1] == d[0] && t[1..] == d;
    DigitNotSpace(d[0]);
    assert SpaceRun(t) == 1 by {
      assert SpaceRun(t[1..]) == 0;
    }
    assert WordRun(d) == 1 by {
      assert WordRun(d[1..]) == 0;
    }
    assert DescriptorMatch(t) == 0;
    StripText(d, []);
    assert d + [] == d;
  }

  lemma FractionLast(u: string, d: string)
    requires NoSpace(u) && NoSpace(d)
    requires |d| >= 2 && IsDigit(d[0]) && d[1] == '.'
    ensures LastToken(StripDescriptors(u + " " + d)) == d
  {
    FractionKept(d);
    StripText(u, " " + d);
    assert u + " " + d == u + (" " + d) == u + [' '] + d;
    LastTokenAfterSpace(u, ' ', d);
  }

  /** A last candidate whose density has a single-digit integer part and
      a fractional part (`1.5x`) is not removed by the pattern, so the descriptor itself is sent as the image
      URL instead of the candidate's URL. */
  lemma FractionalDensityPicksDescriptor(attrs: Attributes, u: string, d: string)
    requires NoSpace(u) && NoSpace(d)
    requires |d| >= 2 && IsDigit(d[0]) && d[1] == '.'
    requires "srcset" in attrs && attrs["srcset"] == u + " " + d
    ensures PickImage(Some(attrs)) == Some(d)
  {
    PickFromSrcset(attrs, u + " " + d);
    FractionLast(u, d);
  }

  /** A last candidate whose density has two or more digits before the dot
      (`10.5x`) loses only those digits and the space before them, so the
      image is the URL glued to the fractional part. */
  lemma MultiDigitFraction(attrs: Attributes, u: string, n: string, r: string)
    requires u != [] && NoSpace(u)
    requires |n| >= 2 && forall i | 0 <= i < |n| :: IsDigit(n[i])
    requires r != [] && NoSpace(r) && !IsWordOrComma(r[0])
    requires "srcset" in attrs && attrs["srcset"] == u + " " + n + r
    ensures PickImage(Some(attrs)) == Some(u + r)
  {
    assert u + " " + n + r == u + (" " + (n + r));
    StripText(u, " " + (n + r));
    assert forall i | 0 <= i < |n| :: IsWordOrComma(n[i]);
    DropDescriptor(n, r);
    StripText(r, []);
    assert r + [] == r;
    assert NoSpace(u + r);
    LastTokenOfWord(u + r);
    PickFromSrcset(attrs, u + (" " + (n + r)));
  }

  lemma MultiDigitExamplePieces()
    ensures "a.jpg" + " " + "10" + ".5x" == "a.jpg 10.5x"
    ensures "a.jpg" + ".5x" == "a.jpg.5x"
  {
  }

  /** `a.jpg 10.5x` gives `a.jpg.5x`. */
  lemma MultiDigitFractionExample(attrs: Attributes)
    requires "srcset" in attrs && attrs["srcset"] == "a.jpg 10.5x"
    ensures PickImage(Some(attrs)) == Some("a.jpg.5x")
  {
    MultiDigitExamplePieces();
    assert NoSpace("a.jpg") && NoSpace(".5x");
    assert IsDigit("10"[0]) && IsDigit("10"[1]);
    MultiDigitFraction(attrs, "a.jpg", "10", ".5x");
  }

  /** The pieces of `u d1, nv d2`, grouped as the scan meets them. */
  lemma MergeShape(u: string, d1: string, n: string, v: string, d2: string)
    ensures u + " " + d1 + ", " + n + v + " " + d2
      == u + (" " + ((d1 + ",") + (" " + (n + (v + (" " + (d2 + [])))))))
  {
  }

  /** A URL that starts with digits, in any candidate but the first, loses
      them: the pattern takes the space before it and its digits for a
      descriptor, so the rest of that URL is glued to the URL before it.
      `a.jpg 1x, 960.jpg 2x` gives `a.jpg.jpg`. */
  lemma LeadingDigitsMerge(attrs: Attributes, u: string, d1: string, n: string, v: string, d2: string)
    requires u != [] && NoSpace(u) && IsDescriptor(d1) && IsDescriptor(d2)
    requires |n| >= 2 && forall i | 0 <= i < |n| :: IsDigit(n[i])
    requires v != [] && NoSpace(v) && !IsWordOrComma(v[0])
    requires "srcset" in attrs && attrs["srcset"] == u + " " + d1 + ", " + n + v + " " + d2
    ensures PickImage(Some(attrs)) == Some(u + v)
  {
    var rest3 := v + (" " + (d2 + []));
    var rest2 := " " + (n + rest3);
    var rest1 := " " + ((d1 + ",") + rest2);
    MergeShape(u, d1, n, v, d2);
    StripText(u, rest1);
    assert forall i | 0 <= i < |d1 + ","| :: IsWordOrComma((d1 + ",")[i]);
    DropDescriptor(d1 + ",", rest2);
    assert forall i | 0 <= i < |n| :: IsWordOrComma(n[i]);
    DropDescriptor(n, rest3);
    StripText(v, " " + (d2 + []));
    DropDescriptor(d2, []);
    assert v + [] == v;
    assert NoSpace(u + v);
    LastTokenOfWord(u + v);
    PickFromSrcset(attrs, u + (" " + ((d1 + ",") + rest2)));
  }

  lemma MergeExamplePieces()
    ensures "a.jpg" + " " + "1x" + ", " + "960" + ".jpg" + " " + "2x" == "a.jpg 1x, 960.jpg 2x"
    ensures "a.jpg" + ".jpg" == "a.jpg.jpg"
  {
  }

  /** `a.jpg 1x, 960.jpg 2x` gives `a.jpg.jpg`, not `960.jpg`. */
  lemma LeadingDigitsExample(attrs: Attributes)
    requires "srcset" in attrs && attrs["srcset"] == "a.jpg 1x, 960.jpg 2x"
    ensures PickImage(Some(attrs)) == Some("a.jpg.jpg")
  {
    MergeExamplePieces();
    assert NoSpace("a.jpg") && NoSpace(".jpg");
    assert IsDescriptor("1x") && IsDescriptor("2x");
    LeadingDigitsMerge(attrs, "a.jpg", "1x", "960", ".jpg", "2x");
  }

  lemma CommaShape(u: string, d1: string, w: string, v: string, d2: string)
    ensures u + " " + d1 + "," + w + v + " " + d2
      == u + (" " + ((d1 + "," + w) + (v + (" " + (d2 + [])))))
  {
  }

  /** A comma with no space after it does not end the descriptor: the
      `[\w,]` run goes on through the comma into the next URL, as far as its
      first character outside `[\w,]`, and all of it is removed, so the rest
      of that URL is glued to the URL before it. */
  lemma CommaWithoutSpaceMerge(attrs: Attributes, u: string, d1: string, w: string, v: string, d2: string)
    requires u != [] && NoSpace(u) && IsDescriptor(d1) && IsDescriptor(d2)
    requires forall i | 0 <= i < |w| :: IsWordOrComma(w[i])
    requires v != [] && NoSpace(v) && !IsWordOrComma(v[0])
    requires "srcset" in attrs && attrs["srcset"] == u + " " + d1 + "," + w + v + " " + d2
    ensures PickImage(Some(attrs)) == Some(u + v)
  {
    var t := d1 + "," + w;
    var rest := v + (" " + (d2 + []));
    CommaShape(u, d1, w, v, d2);
    StripText(u, " " + (t + rest));
    assert forall i | 0 <= i < |t| :: IsWordOrComma(t[i]);
    DropDescriptor(t, rest);
    StripText(v, " " + (d2 + []));
    DropDescriptor(d2, []);
    assert v + [] == v;
    assert NoSpace(u + v);
    LastTokenOfWord(u + v);
    PickFromSrcset(attrs, u + (" " + (t + rest)));
  }

  lemma CommaExamplePieces()
    ensures "a.jpg" + " " + "480w" + "," + "b" + ".jpg" + " " + "960w" == "a.jpg 480w,b.jpg 960w"
    ensures "a.jpg" + ".jpg" == "a.jpg.jpg"
  {
  }

  /** `a.jpg 480w,b.jpg 960w` gives `a.jpg.jpg`, not `b.jpg`. */
  lemma CommaWithoutSpaceExample(attrs: Attributes)
    requires "srcset" in attrs && attrs["srcset"] == "a.jpg 480w,b.jpg 960w"
    ensures PickImage(Some(attrs)) == Some("a.jpg.jpg")
  {
    CommaExamplePieces();
    assert NoSpace("a.jpg") && NoSpace(".jpg");
    assert IsDescriptor("480w") && IsDescriptor("960w");
    assert IsWordOrComma("b"[0]);
    CommaWithoutSpaceMerge(attrs, "a.jpg", "480w", "b", ".jpg", "960w");
  }

  function ExampleCandidates(): seq<Candidate> {
    [Candidate("a.jpg", "480w"), Candidate("b.jpg", "960w")]
  }

  lemma ExampleWellFormed()
    ensures forall i | 0 <= i < |ExampleCandidates()| :: WellFormed(ExampleCandidates()[i])
  {
    assert IsDescriptor("480w");
    assert IsDescriptor("960w");
  }

  lemma ExampleSrcset()
    ensures Srcset(ExampleCandidates()) == "a.jpg 480w, b.jpg 960w"
  {
    var cs := ExampleCandidates();
    assert cs[1..] == [cs[1]];
    assert Srcset([cs[1]]) == "b.jpg 960w";
  }

  /** `a.jpg 480w, b.jpg 960w` gives `b.jpg`. */
  lemma PickImageExample(attrs: Attributes)
    requires "srcset" in attrs && attrs["srcset"] == "a.jpg 480w, b.jpg 960w"
    ensures PickImage(Some(attrs)) == Some("b.jpg")
  {
    ExampleWellFormed();
    ExampleSrcset();
    PickImageFromSrcset(attrs, ExampleCandidates());
  }
}
