/** The summary of an item: its HTML body with emphasis turned into `*`,
    flattened to text, cut to a budget that leaves room for the link,
    shortened to a word boundary, with newline runs normalised and an
    unpaired `*` closed. */
module Summary {
  import opened Js
  import opened Config

  // ---------------------------------------------------------------------
  // Emphasis: raw.replace(/<(em|i)>\s*|\s*<\/(em|i)>/g, '*')
  // ---------------------------------------------------------------------

  /** Length of the `<em>` or `<i>` tag that `s` starts with, 0 if none. */
  function OpenTagLen(s: string): (n: nat)
    ensures n == 0 || n == 3 || n == 4
    ensures n > 0 ==> n <= |s| && s[0] == '<'
  {
    if |s| >= 4 && s[0] == '<' && s[1] == 'e' && s[2] == 'm' && s[3] == '>' then 4
    else if |s| >= 3 && s[0] == '<' && s[1] == 'i' && s[2] == '>' then 3
    else 0
  }

  /** Length of the `</em>` or `</i>` tag that `s` starts with, 0 if none. */
  function CloseTagLen(s: string): (n: nat)
    ensures n == 0 || n == 4 || n == 5
    ensures n > 0 ==> n <= |s| && s[0] == '<'
  {
    if |s| >= 5 && s[0] == '<' && s[1] == '/' && s[2] == 'e' && s[3] == 'm' && s[4] == '>' then 5
    else if |s| >= 4 && s[0] == '<' && s[1] == '/' && s[2] == 'i' && s[3] == '>' then 4
    else 0
  }

  /** Length of the match of `<(em|i)>\s*|\s*<\/(em|i)>` at the start of
      `s`, 0 if there is none. The first alternative (an opening tag and the
      white space after it, taken greedily) is tried before the second (white
      space, then a closing tag); a white-space run can precede a closing tag
      only as a whole, since `<` is not white space. */
  function MatchLen(s: string): (n: nat)
    ensures n <= |s|
  {
    if OpenTagLen(s) > 0 then OpenTagLen(s) + SpaceRun(s[OpenTagLen(s)..])
    else if CloseTagLen(s[SpaceRun(s)..]) > 0 then SpaceRun(s) + CloseTagLen(s[SpaceRun(s)..])
    else 0
  }

  /** The global replace, scanning left to right: a match becomes one `*`;
      where nothing matches, one character is kept and the scan moves on. */
  function Emphasize(s: string): (r: string)
    ensures |r| <= |s|
    decreases |s|
  {
    if s == [] then []
    else if MatchLen(s) > 0 then "*" + Emphasize(s[MatchLen(s)..])
    else [s[0]] + Emphasize(s[1..])
  }

  lemma {:induction false} SpaceRunAppend(a: string, b: string)
    ensures SpaceRun(a + b) == if AllSpace(a) then |a| + SpaceRun(b) else SpaceRun(a)
  {
    if a == [] {
      assert a + b == b;
    } else {
      assert (a + b)[1..] == a[1..] + b;
      SpaceRunAppend(a[1..], b);
      if AllSpace(a[1..]) && IsSpace(a[0]) {
        assert AllSpace(a);
      }
    }
  }

  lemma OpenTagMatch(tag: string, ws: string, b: string)
    requires tag == "<em>" || tag == "<i>"
    requires AllSpace(ws) && (b == [] || !IsSpace(b[0]))
    ensures MatchLen(tag + ws + b) == |tag| + |ws|
  {
    var s := tag + ws + b;
    if tag == "<em>" {
      assert s[..4] == tag;
    } else {
      assert s[..3] == tag;
      assert s[1] == 'i';
    }
    assert OpenTagLen(s) == |tag|;
    assert s[|tag|..] == ws + b;
    SpaceRunAppend(ws, b);
  }

  /** An opening tag and all the white space after it become one `*`. */
  lemma EmphasizeOpenTag(tag: string, ws: string, b: string)
    requires tag == "<em>" || tag == "<i>"
    requires AllSpace(ws) && (b == [] || !IsSpace(b[0]))
    ensures Emphasize(tag + ws + b) == "*" + Emphasize(b)
  {
    var s := tag + ws + b;
    OpenTagMatch(tag, ws, b);
    assert s[|tag| + |ws|..] == b;
  }

  lemma CloseTagLength(tag: string, b: string)
    requires tag == "</em>" || tag == "</i>"
    ensures CloseTagLen(tag + b) == |tag| && OpenTagLen(tag + b) == 0
  {
    var t := tag + b;
    assert t[1] == '/';
    if tag == "</em>" {
      assert t[..5] == tag;
    } else {
      assert t[..4] == tag;
      assert t[2] == 'i';
    }
  }

  lemma CloseTagMatch(ws: string, tag: string, b: string)
    requires tag == "</em>" || tag == "</i>"
    requires AllSpace(ws)
    ensures MatchLen(ws + (tag + b)) == |ws| + |tag|
  {
    var s := ws + (tag + b);
    var t := tag + b;
    CloseTagLength(tag, b);
    SpaceRunAppend(ws, t);
    assert SpaceRun(t) == 0 by {
      VisibleNotSpace('<');
      assert t[0] == '<';
    }
    assert s[|ws|..] == t;
    if ws == [] {
      assert s == t;
    } else {
      assert s[0] == ws[0] && IsSpace(ws[0]);
      assert OpenTagLen(s) == 0;
    }
  }

  /** All the white space before a closing tag, and the tag, become one `*`. */
  lemma EmphasizeCloseTag(ws: string, tag: string, b: string)
    requires tag == "</em>" || tag == "</i>"
    requires AllSpace(ws)
    ensures Emphasize(ws + tag + b) == "*" + Emphasize(b)
  {
    var s := ws + (tag + b);
    CloseTagMatch(ws, tag, b);
    assert s[|ws| + |tag|..] == b;
    assert ws + tag + b == ws + (tag + b);
  }

  /** No `<em>`, `<i>`, `</em>` or `</i>` starts inside `a` when `a` is
      followed by `b`. */
  predicate NoTagIn(a: string, b: string) {
    forall i | 0 <= i < |a| :: OpenTagLen((a + b)[i..]) == 0 && CloseTagLen((a + b)[i..]) == 0
  }

  /** Text without `<` holds no tag, whatever follows it. */
  lemma NoAngleNoTag(a: string, b: string)
    requires '<' !in a
    ensures NoTagIn(a, b)
  {
    forall i | 0 <= i < |a|
      ensures OpenTagLen((a + b)[i..]) == 0 && CloseTagLen((a + b)[i..]) == 0
    {
      assert (a + b)[i..][0] == a[i];
    }
  }

  /** No match of the pattern starts inside `a`: no tag starts there, and a
      white-space run that reaches the end of `a` is not followed by a
      closing tag. */
  lemma NoMatchInText(a: string, b: string)
    requires NoTagIn(a, b)
    requires a == [] || !IsSpace(a[|a| - 1]) || CloseTagLen(b[SpaceRun(b)..]) == 0
    ensures forall i | 0 <= i < |a| :: MatchLen((a + b)[i..]) == 0
  {
    forall i | 0 <= i < |a|
      ensures MatchLen((a + b)[i..]) == 0
    {
      var s := (a + b)[i..];
      var t := a[i..];
      assert s == t + b;
      SpaceRunAppend(t, b);
      if AllSpace(t) {
        assert IsSpace(t[|t| - 1]);
        assert s[SpaceRun(s)..] == b[SpaceRun(b)..];
      } else {
        var j := SpaceRun(t);
        assert s[j..] == (a + b)[i + j..];
      }
    }
  }

  /** Where no match starts, the replace keeps one character and moves on. */
  lemma EmphasizeKeep(s: string)
    requires s != [] && MatchLen(s) == 0
    ensures Emphasize(s) == [s[0]] + Emphasize(s[1..])
  {
  }

  /** Where no match starts in the first `n` positions, the replace keeps
      those `n` characters. */
  lemma {:induction false} EmphasizeUnmatched(s: string, n: nat)
    requires n <= |s| && forall i {:trigger MatchLen(s[i..])} | 0 <= i < n :: MatchLen(s[i..]) == 0
    ensures Emphasize(s) == s[..n] + Emphasize(s[n..])
    decreases n
  {
    if n == 0 {
      assert s[..0] == [] && s[0..] == s;
    } else {
      UnmatchedTail(s, n);
      EmphasizeKeep(s);
      EmphasizeUnmatched(s[1..], n - 1);
      PrefixCons(s, n);
      var e := Emphasize(s[n..]);
      Assoc3([s[0]], s[1..][..n - 1], e);
    }
  }

  lemma UnmatchedTail(s: string, n: nat)
    requires 0 < n <= |s| && forall i {:trigger MatchLen(s[i..])} | 0 <= i < n :: MatchLen(s[i..]) == 0
    ensures MatchLen(s) == 0
    ensures forall i {:trigger MatchLen(s[1..][i..])} | 0 <= i < n - 1 :: MatchLen(s[1..][i..]) == 0
  {
    assert s[0..] == s;
    forall i | 0 <= i < n - 1
      ensures MatchLen(s[1..][i..]) == 0
    {
      assert s[1..][i..] == s[i + 1..];
    }
  }

  lemma PrefixCons(s: string, n: nat)
    requires 0 < n <= |s|
    ensures s[1..][n - 1..] == s[n..] && s[..n] == [s[0]] + s[1..][..n - 1]
  {
  }

  /** Text in which no emphasis tag starts passes through unchanged, other
      tags included, provided its trailing white space is not followed by a
      closing tag. */
  lemma EmphasizeText(a: string, b: string)
    requires NoTagIn(a, b)
    requires a == [] || !IsSpace(a[|a| - 1]) || CloseTagLen(b[SpaceRun(b)..]) == 0
    ensures Emphasize(a + b) == a + Emphasize(b)
  {
    NoMatchInText(a, b);
    EmphasizeUnmatched(a + b, |a|);
    assert (a + b)[..|a|] == a && (a + b)[|a|..] == b;
  }

  /** A body in which no emphasis tag starts is left as it is. */
  lemma EmphasizeNoTags(s: string)
    requires NoTagIn(s, [])
    ensures Emphasize(s) == s
  {
    assert s + [] == s;
    EmphasizeText(s, []);
  }

  /** An emphasised word becomes the word between two `*`, whatever white
      space surrounds it inside the tags and whatever other tags precede it:
      `<p>x <em> y </em></p>` gives `<p>x *y*</p>`. */
  lemma EmphasizeWord(pre: string, open: string, ws1: string, word: string, ws2: string, close: string, post: string)
    requires open == "<em>" || open == "<i>"
    requires close == "</em>" || close == "</i>"
    requires NoTagIn(pre, open + ws1 + word + ws2 + close + post)
    requires '<' !in word
    requires AllSpace(ws1) && AllSpace(ws2)
    requires word != [] && !IsSpace(word[0]) && !IsSpace(word[|word| - 1])
    ensures Emphasize(pre + open + ws1 + word + ws2 + close + post) == pre + "*" + word + "*" + Emphasize(post)
  {
    var b := open + ws1 + word + ws2 + close + post;
    var e := Emphasize(post);
    RegroupWord(pre, open, ws1, word, ws2, close, post, e);
    EmphasizeFromOpen(open, ws1, word, ws2, close, post);
    OpenTagIsNoClose(open, ws1 + (word + (ws2 + close + post)));
    EmphasizeText(pre, b);
  }

  /** `<p>x <em> y </em></p>` becomes `<p>x *y*</p>`: the paragraph tags
      stay, the emphasis tags and the spaces inside them become `*`. */
  lemma EmphasizeParagraph()
    ensures Emphasize("<p>x <em> y </em></p>") == "<p>x *y*</p>"
  {
    var pre, post := "<p>x ", "</p>";
    var b := "<em>" + " " + "y" + " " + "</em>" + post;
    forall i | 0 <= i < |pre|
      ensures OpenTagLen((pre + b)[i..]) == 0 && CloseTagLen((pre + b)[i..]) == 0
    {
      assert (pre + b)[i..][..5] == (pre + b)[i..i + 5];
    }
    forall i | 0 <= i < |post|
      ensures OpenTagLen((post + [])[i..]) == 0 && CloseTagLen((post + [])[i..]) == 0
    {
    }
    VisibleNotSpace('y');
    EmphasizeWord(pre, "<em>", " ", "y", " ", "</em>", post);
    EmphasizeNoTags(post);
    ParagraphPieces();
  }

  lemma ParagraphPieces()
    ensures "<p>x " + "<em>" + " " + "y" + " " + "</em>" + "</p>" == "<p>x <em> y </em></p>"
    ensures "<p>x " + "*" + "y" + "*" + "</p>" == "<p>x *y*</p>"
  {
  }

  /** The groupings of the pieces of an emphasised word used above. */
  lemma RegroupWord(pre: string, open: string, ws1: string, word: string, ws2: string, close: string,
                    post: string, e: string)
    ensures pre + open + ws1 + word + ws2 + close + post == pre + (open + ws1 + word + ws2 + close + post)
    ensures open + ws1 + word + ws2 + close + post == open + (ws1 + (word + (ws2 + close + post)))
    ensures pre + ("*" + (word + ("*" + e))) == pre + "*" + word + "*" + e
  {
  }

  lemma EmphasizeFromOpen(open: string, ws1: string, word: string, ws2: string, close: string, post: string)
    requires open == "<em>" || open == "<i>"
    requires close == "</em>" || close == "</i>"
    requires '<' !in word
    requires AllSpace(ws1) && AllSpace(ws2)
    requires word != [] && !IsSpace(word[0]) && !IsSpace(word[|word| - 1])
    ensures Emphasize(open + (ws1 + (word + (ws2 + close + post)))) == "*" + (word + ("*" + Emphasize(post)))
  {
    EmphasizeCloseTag(ws2, close, post);
    NoAngleNoTag(word, ws2 + close + post);
    EmphasizeText(word, ws2 + close + post);
    EmphasizeOpenTag(open, ws1, word + (ws2 + close + post));
    Assoc3(open, ws1, word + (ws2 + close + post));
  }

  lemma OpenTagIsNoClose(open: string, rest: string)
    requires open == "<em>" || open == "<i>"
    ensures CloseTagLen((open + rest)[SpaceRun(open + rest)..]) == 0
  {
    var b := open + rest;
    VisibleNotSpace('<');
    assert b[0] == '<';
    assert b[1] == open[1];
  }

  // ---------------------------------------------------------------------
  // Length budget and word boundary
  // ---------------------------------------------------------------------

  /** Characters the summary may take: 800 less the length of the link,
      never negative (`substr` treats a negative length as 0). */
  function Budget(url: string): (n: nat)
    ensures n + |url| >= 800
    ensures |url| <= 800 ==> n + |url| == 800
    ensures |url| >= 800 ==> n == 0
  {
    if |url| < 800 then 800 - |url| else 0
  }

  /** `s.substr(0, n)` */
  function Cut(s: string, n: nat): (r: string)
    ensures |r| == if |s| <= n then |s| else n
    ensures r == s[..|r|]
  {
    if |s| <= n then s else s[..n]
  }

  /** `t.split(' ')`, `pop()`, `join(' ')`: drops the last space-separated
      piece of `t` and the space before it. */
  function DropLastWord(t: string): string {
    var parts := Split(t, ' ');
    Join(parts[..|parts| - 1], ' ')
  }

  /** The result is empty when `t` has no space, and otherwise is `t` up to
      its last space: a word is never cut in half, and the final word is
      always dropped. */
  lemma DropLastWordShape(t: string)
    ensures ' ' !in t ==> DropLastWord(t) == ""
    ensures ' ' in t ==> var r := DropLastWord(t);
      |r| < |t| && t[..|r|] == r && t[|r|] == ' ' && ' ' !in t[|r| + 1..]
  {
    var parts := Split(t, ' ');
    if ' ' in t {
      var n := |parts|;
      JoinSnoc(parts, ' ');
      JoinSplit(t, ' ');
      var r := Join(parts[..n - 1], ' ');
      assert t == r + [' '] + parts[n - 1];
      assert t[|r| + 1..] == parts[n - 1];
    }
  }

  /** `content.substr(0, 800 - url.length).trim()`, split, pop, join. */
  function Truncate(text: string, url: string): string {
    DropLastWord(Trim(Cut(text, Budget(url))))
  }

  /** Before newline runs are collapsed, the summary is a prefix of the
      trimmed cut text, within the budget, and ends at a word boundary. */
  lemma TruncateWithinBudget(text: string, url: string)
    ensures var c := Trim(Cut(text, Budget(url)));
      var r := Truncate(text, url);
      |r| <= |c| <= Budget(url) && r == c[..|r|] && (r != "" ==> |r| < |c| && c[|r|] == ' ')
  {
    var c := Trim(Cut(text, Budget(url)));
    TrimInfix(Cut(text, Budget(url)));
    DropLastWordShape(c);
  }

  /** The last word is dropped even when the text fits the budget and
      nothing was cut: `text` followed by a space and a word gives `text`. */
  lemma LastWordDroppedWhenShort(text: string, word: string, url: string)
    requires ' ' !in text && ' ' !in word
    requires text != [] && word != [] && !IsSpace(text[0]) && !IsSpace(word[|word| - 1])
    requires |text| + 1 + |word| <= Budget(url)
    ensures Truncate(text + " " + word, url) == text
  {
    var c := text + " " + word;
    assert Cut(c, Budget(url)) == c;
    assert c[0] == text[0] && c[|c| - 1] == word[|word| - 1];
    TrimNoEdgeSpace(c);
    assert c[|text|] == ' ';
    DropLastWordShape(c);
    var r := DropLastWord(c);
    assert forall i | 0 <= i < |text| :: c[i] == text[i];
    assert forall i | |text| < i < |c| :: c[i] == word[i - |text| - 1];
    assert |r| == |text|;
    assert r == c[..|text|] == text;
  }

  // ---------------------------------------------------------------------
  // Newline runs: content.replace(/\n+/g, '\n\n')
  // ---------------------------------------------------------------------

  /** Length of the run of `\n` at the start of `s`. */
  function NewlineRun(s: string): (n: nat)
    ensures 0 < |s| && s[0] == '\n' ==> n > 0
    ensures n <= |s|
    ensures forall i | 0 <= i < n :: s[i] == '\n'
    ensures n == |s| || s[n] != '\n'
  {
    if s != [] && s[0] == '\n' then 1 + NewlineRun(s[1..]) else 0
  }

  /** Three `\n` in a row start at `i`. */
  predicate TripleAt(s: string, i: int)
    requires 0 <= i < |s| - 2
  {
    s[i] == '\n' && s[i + 1] == '\n' && s[i + 2] == '\n'
  }

  predicate NoTripleNewline(s: string) {
    forall i | 0 <= i < |s| - 2 :: !TripleAt(s, i)
  }

  /** The character at `i` has a `\n` next to it. */
  predicate NewlineBeside(s: string, i: int)
    requires 0 <= i < |s|
  {
    (i + 1 < |s| && s[i + 1] == '\n') || (i > 0 && s[i - 1] == '\n')
  }

  predicate NoLoneNewline(s: string) {
    forall i | 0 <= i < |s| && s[i] == '\n' :: NewlineBeside(s, i)
  }

  /** Every maximal run of `\n` has length exactly two: no three in a row and
      none alone. */
  predicate Collapsed(s: string) {
    NoTripleNewline(s) && NoLoneNewline(s)
  }

  /** Each maximal run of `\n` becomes exactly two. */
  function Collapse(s: string): (r: string)
    ensures |r| <= 2 * |s|
    ensures r == [] <==> s == []
    ensures s != [] ==> (r[0] == '\n' <==> s[0] == '\n')
    decreases |s|
  {
    if s == [] then []
    else if s[0] == '\n' then "\n\n" + Collapse(s[NewlineRun(s)..])
    else [s[0]] + Collapse(s[1..])
  }

  /** Putting a character other than `\n` in front of a collapsed string
      keeps it collapsed. */
  lemma ConsCollapsed(c: char, t: string)
    requires c != '\n' && Collapsed(t)
    ensures Collapsed([c] + t)
  {
    var s := [c] + t;
    assert NoLoneNewline(t);
    forall i | 0 <= i < |s| && s[i] == '\n'
      ensures NewlineBeside(s, i)
    {
      assert s[0] == c;
      var j := i - 1;
      assert t[j] == s[i];
      assert NewlineBeside(t, j);
      if j + 1 < |t| && t[j + 1] == '\n' {
        assert s[i + 1] == t[j + 1];
      } else {
        assert s[i - 1] == t[j - 1];
      }
    }
    forall i | 0 <= i < |s| - 2
      ensures !TripleAt(s, i)
    {
      if i > 0 {
        assert s[i] == t[i - 1] && s[i + 1] == t[i] && s[i + 2] == t[i + 1];
        assert !TripleAt(t, i - 1);
      }
    }
  }

  /** Putting two `\n` in front of a collapsed string that does not start
      with `\n` keeps it collapsed. */
  lemma PairCollapsed(t: string)
    requires Collapsed(t) && (t == [] || t[0] != '\n')
    ensures Collapsed("\n\n" + t)
  {
    var s := "\n\n" + t;
    assert NoLoneNewline(t);
    forall i | 0 <= i < |s| && s[i] == '\n'
      ensures NewlineBeside(s, i)
    {
      if i >= 2 {
        var j := i - 2;
        assert t[j] == s[i];
        assert NewlineBeside(t, j);
        if j + 1 < |t| && t[j + 1] == '\n' {
          assert s[i + 1] == t[j + 1];
        } else {
          assert j > 0;
          assert s[i - 1] == t[j - 1];
        }
      } else {
        assert s[0] == '\n' && s[1] == '\n';
      }
    }
    forall i | 0 <= i < |s| - 2
      ensures !TripleAt(s, i)
    {
      if i >= 2 {
        assert s[i] == t[i - 2] && s[i + 1] == t[i - 1] && s[i + 2] == t[i];
        assert !TripleAt(t, i - 2);
      } else {
        assert s[2] == t[0];
      }
    }
  }

  /** After the replacement no run of `\n` is shorter or longer than two. */
  lemma {:induction false} CollapseIsCollapsed(s: string)
    ensures Collapsed(Collapse(s))
    decreases |s|
  {
    if s != [] {
      if s[0] == '\n' {
        CollapseIsCollapsed(s[NewlineRun(s)..]);
        PairCollapsed(Collapse(s[NewlineRun(s)..]));
      } else {
        CollapseIsCollapsed(s[1..]);
        ConsCollapsed(s[0], Collapse(s[1..]));
      }
    }
  }

  /** A suffix of a collapsed string that does not start in the middle of a
      run of `\n` is still collapsed. */
  lemma CollapsedSuffix(s: string, k: nat)
    requires Collapsed(s) && 0 < k <= |s|
    requires k == |s| || s[k] != '\n' || s[k - 1] != '\n'
    ensures Collapsed(s[k..])
  {
    var t := s[k..];
    assert NoLoneNewline(s);
    forall i | 0 <= i < |t| && t[i] == '\n'
      ensures NewlineBeside(t, i)
    {
      assert s[k + i] == t[i];
      assert NewlineBeside(s, k + i);
      if k + i + 1 < |s| && s[k + i + 1] == '\n' {
        assert t[i + 1] == s[k + i + 1];
      } else {
        assert s[k + i - 1] == '\n';
        assert i > 0;
        assert t[i - 1] == s[k + i - 1];
      }
    }
    forall i | 0 <= i < |t| - 2
      ensures !TripleAt(t, i)
    {
      assert t[i] == s[k + i] && t[i + 1] == s[k + i + 1] && t[i + 2] == s[k + i + 2];
      assert !TripleAt(s, k + i);
    }
    assert NoLoneNewline(t) && NoTripleNewline(t);
  }

  /** A collapsed string that starts with `\n` starts with a run of exactly
      two. */
  lemma CollapsedRunIsTwo(s: string)
    requires Collapsed(s) && s != [] && s[0] == '\n'
    ensures |s| > 1 && s[1] == '\n' && (|s| == 2 || s[2] != '\n')
    ensures NewlineRun(s) == 2
  {
    assert NoLoneNewline(s);
    assert NewlineBeside(s, 0);
    assert |s| > 1 && s[1] == '\n';
    assert |s| == 2 || s[2] != '\n' by {
      if |s| > 2 {
        assert NoTripleNewline(s);
        assert !TripleAt(s, 0);
      }
    }
    assert NewlineRun(s[1..]) == 1 + NewlineRun(s[2..]);
  }

  /** A collapsed string is left alone by the replacement. */
  lemma {:induction false} CollapsedIsFixed(s: string)
    requires Collapsed(s)
    ensures Collapse(s) == s
    decreases |s|
  {
    if s != [] {
      if s[0] == '\n' {
        CollapsedRunIsTwo(s);
        CollapsedSuffix(s, 2);
        CollapsedIsFixed(s[2..]);
        assert s == "\n\n" + s[2..];
      } else {
        CollapsedSuffix(s, 1);
        CollapsedIsFixed(s[1..]);
        assert s == [s[0]] + s[1..];
      }
    }
  }

  /** The collapsed strings are exactly the ones the replacement leaves
      alone. */
  lemma CollapseFixedPoints(s: string)
    ensures Collapse(s) == s <==> Collapsed(s)
  {
    CollapseIsCollapsed(s);
    if Collapsed(s) {
      CollapsedIsFixed(s);
    }
  }

  /** Collapsing twice changes nothing more. */
  lemma CollapseIdempotent(s: string)
    ensures Collapse(Collapse(s)) == Collapse(s)
  {
    CollapseIsCollapsed(s);
    CollapsedIsFixed(Collapse(s));
  }

  lemma CountNewlineRun(s: string)
    ensures Count(s[..NewlineRun(s)], '*') == 0
  {
    CountAbsent(s[..NewlineRun(s)], '*');
  }

  /** Collapsing newline runs keeps every `*`. */
  lemma {:induction false} CountCollapse(s: string)
    ensures Count(Collapse(s), '*') == Count(s, '*')
    decreases |s|
  {
    if s != [] {
      if s[0] == '\n' {
        var n := NewlineRun(s);
        var rest := s[n..];
        CountCollapse(rest);
        assert s == s[..n] + rest;
        CountAppend(s[..n], rest, '*');
        CountNewlineRun(s);
        CountAppend("\n\n", Collapse(rest), '*');
      } else {
        CountCollapse(s[1..]);
      }
    }
  }

  /** `s` with every `\n` removed. */
  function DropNewlines(s: string): (r: string)
    ensures |r| <= |s| && '\n' !in r
  {
    if s == [] then []
    else if s[0] == '\n' then DropNewlines(s[1..])
    else [s[0]] + DropNewlines(s[1..])
  }

  lemma {:induction false} DropNewlinesAppend(a: string, b: string)
    ensures DropNewlines(a + b) == DropNewlines(a) + DropNewlines(b)
    decreases |a|
  {
    if a == [] {
      assert a + b == b;
    } else {
      assert (a + b)[0] == a[0] && (a + b)[1..] == a[1..] + b;
      DropNewlinesAppend(a[1..], b);
      if a[0] != '\n' {
        Assoc3([a[0]], DropNewlines(a[1..]), DropNewlines(b));
      }
    }
  }

  /** A run of `\n` leaves nothing behind. */
  lemma {:induction false} DropNewlineRun(s: string, n: nat)
    requires n <= |s| && forall i | 0 <= i < n :: s[i] == '\n'
    ensures DropNewlines(s[..n]) == []
    decreases n
  {
    if n > 0 {
      var t := s[..n];
      assert t[1..] == s[1..][..n - 1];
      DropNewlineRun(s[1..], n - 1);
    }
  }

  /** The replace only changes newlines: every other character survives, in
      order. */
  lemma {:induction false} CollapseKeepsText(s: string)
    ensures DropNewlines(Collapse(s)) == DropNewlines(s)
    decreases |s|
  {
    if s != [] {
      if s[0] == '\n' {
        var n := NewlineRun(s);
        var rest := s[n..];
        CollapseKeepsText(rest);
        assert s == s[..n] + rest;
        DropNewlinesAppend(s[..n], rest);
        DropNewlineRun(s, n);
        DropNewlinesAppend("\n\n", Collapse(rest));
        assert DropNewlines("\n\n") == [] by {
          DropNewlineRun("\n\n", 2);
          assert "\n\n"[..2] == "\n\n";
        }
      } else {
        CollapseKeepsText(s[1..]);
      }
    }
  }

  /** `s` with every maximal run of `\n` shortened to one `\n`: what the
      replace keeps of where the runs are. */
  function Squeeze(s: string): (r: string)
    ensures |r| <= |s|
    ensures r == [] <==> s == []
    ensures s != [] ==> r[0] == s[0]
    decreases |s|
  {
    if s == [] then []
    else if s[0] == '\n' then "\n" + Squeeze(s[NewlineRun(s)..])
    else [s[0]] + Squeeze(s[1..])
  }

  /** The replace keeps every run of `\n` where it was and adds none: the
      input and the output agree once their runs are shortened to one. */
  lemma {:induction false} CollapseSqueeze(s: string)
    ensures Squeeze(Collapse(s)) == Squeeze(s)
    decreases |s|
  {
    if s != [] {
      if s[0] == '\n' {
        var rest := s[NewlineRun(s)..];
        var c := Collapse(rest);
        CollapseSqueeze(rest);
        var t := "\n\n" + c;
        assert t[1..] == "\n" + c && t[2..] == c;
        assert NewlineRun(t) == 2 by {
          assert NewlineRun(t[1..]) == 1 + NewlineRun(t[2..]);
        }
      } else {
        var t := [s[0]] + Collapse(s[1..]);
        assert t[1..] == Collapse(s[1..]);
        CollapseSqueeze(s[1..]);
      }
    }
  }

  /** Two collapsed strings with the same runs in the same places are
      equal. */
  lemma {:induction false} CollapsedBySqueeze(r1: string, r2: string)
    requires Collapsed(r1) && Collapsed(r2)
    requires Squeeze(r1) == Squeeze(r2)
    ensures r1 == r2
    decreases |r1|
  {
    if r1 != [] {
      assert r2 != [] && r1[0] == r2[0];
      if r1[0] == '\n' {
        CollapsedRunIsTwo(r1);
        CollapsedRunIsTwo(r2);
        var q1 := Squeeze(r1[2..]);
        var q2 := Squeeze(r2[2..]);
        assert Squeeze(r1) == "\n" + q1 && Squeeze(r2) == "\n" + q2;
        assert q1 == Squeeze(r1)[1..] == Squeeze(r2)[1..] == q2;
        CollapsedSuffix(r1, 2);
        CollapsedSuffix(r2, 2);
        CollapsedBySqueeze(r1[2..], r2[2..]);
        assert r1 == "\n\n" + r1[2..] && r2 == "\n\n" + r2[2..];
      } else {
        var q1 := Squeeze(r1[1..]);
        var q2 := Squeeze(r2[1..]);
        assert q1 == Squeeze(r1)[1..] == Squeeze(r2)[1..] == q2;
        CollapsedSuffix(r1, 1);
        CollapsedSuffix(r2, 1);
        CollapsedBySqueeze(r1[1..], r2[1..]);
        assert r1 == [r1[0]] + r1[1..] && r2 == [r2[0]] + r2[1..];
      }
    }
  }

  /** The replace's result is the one collapsed string whose runs of `\n`
      sit where the input's do: every maximal run becomes exactly `\n\n`
      and nothing else changes. */
  lemma CollapseCharacterised(s: string, r: string)
    ensures r == Collapse(s) <==> Collapsed(r) && Squeeze(r) == Squeeze(s)
  {
    CollapseIsCollapsed(s);
    CollapseSqueeze(s);
    if Collapsed(r) && Squeeze(r) == Squeeze(s) {
      CollapsedBySqueeze(r, Collapse(s));
    }
  }

  // ---------------------------------------------------------------------
  // Asterisk parity
  // ---------------------------------------------------------------------

  /** Closes an unpaired `*`: when the count is odd, the trimmed text with one
      `*` appended; otherwise the text unchanged. */
  function RepairStars(s: string): string {
    if Count(s, '*') % 2 != 0 then Trim(s) + "*" else s
  }

  /** After the repair the number of `*` is even, and a text whose count is
      already even is left alone. */
  lemma RepairStarsEven(s: string)
    ensures Count(RepairStars(s), '*') % 2 == 0
    ensures Count(s, '*') % 2 == 0 ==> RepairStars(s) == s
  {
    var n := Count(s, '*');
    if n % 2 != 0 {
      ClosingStarCount(s);
      var m := Count(Trim(s) + "*", '*');
      assert m == n + 1;
      assert m % 2 == 0;
    }
  }

  /** Closing a star after trimming adds exactly one `*`. */
  lemma ClosingStarCount(s: string)
    ensures Count(Trim(s) + "*", '*') == Count(s, '*') + 1
  {
    var r := Trim(s);
    VisibleNotSpace('*');
    CountTrim(s, '*');
    CountAppend(r, "*", '*');
    assert Count("*", '*') == 1;
  }

  // ---------------------------------------------------------------------
  // The whole pipeline
  // ---------------------------------------------------------------------

  /** The text after extraction and the optional trim pattern. `text` is the
      HTML-to-text flattening of the parsed document; `trimCut` removes the
      first match of the configured TRIM_REGEX. */
  function Extracted(raw: string, env: Settings, text: string -> string, trimCut: string -> string): string {
    var t := text(Emphasize(raw));
    if Truthy(env.trimRegex) then Trim(trimCut(t)) else t
  }

  /** The summary sent for an item whose body is `raw` and whose link is `url`. */
  function SummaryText(raw: string, url: string, env: Settings,
                       text: string -> string, trimCut: string -> string): string {
    RepairStars(Collapse(Truncate(Extracted(raw, env, text, trimCut), url)))
  }

  /** Step by step as the relay builds it, reassigning one variable. */
  method Summarize(raw: string, url: string, env: Settings,
                   text: string -> string, trimCut: string -> string) returns (content: string)
    ensures content == SummaryText(raw, url, env, text, trimCut)
    ensures Count(content, '*') % 2 == 0
  {
    content := text(Emphasize(raw));
    if Truthy(env.trimRegex) {
      content := Trim(trimCut(content));
    }
    ghost var extracted := content;
    assert extracted == Extracted(raw, env, text, trimCut);
    var parts := Split(Trim(Cut(content, Budget(url))), ' ');
    parts := parts[..|parts| - 1];
    content := Join(parts, ' ');
    ghost var truncated := content;
    assert truncated == Truncate(extracted, url);
    content := Collapse(content);
    ghost var collapsed := content;
    if Count(content, '*') % 2 != 0 {
      content := Trim(content) + "*";
      assert content == RepairStars(collapsed);
    } else {
      assert content == RepairStars(collapsed);
    }
    RepairStarsEven(collapsed);
  }

  lemma NoTripleInfix(s: string, a: nat, b: nat)
    requires NoTripleNewline(s) && a <= b <= |s|
    ensures NoTripleNewline(s[a..b])
  {
    var t := s[a..b];
    forall i | 0 <= i < |t| - 2
      ensures !TripleAt(t, i)
    {
      assert t[i] == s[a + i] && t[i + 1] == s[a + i + 1] && t[i + 2] == s[a + i + 2];
      assert !TripleAt(s, a + i);
    }
  }

  lemma NoTripleStar(s: string)
    requires NoTripleNewline(s)
    ensures NoTripleNewline(s + "*")
  {
    var t := s + "*";
    forall i | 0 <= i < |t| - 2
      ensures !TripleAt(t, i)
    {
      if i + 2 < |s| {
        assert t[i] == s[i] && t[i + 1] == s[i + 1] && t[i + 2] == s[i + 2];
        assert !TripleAt(s, i);
      }
    }
  }

  /** Trimming a string without three newlines in a row and closing a star
      does not create any. */
  lemma TrimStarKeepsNoTriple(s: string)
    requires NoTripleNewline(s)
    ensures NoTripleNewline(Trim(s) + "*")
  {
    var r := Trim(s);
    var a := SpaceRun(s);
    TrimInfix(s);
    NoTripleInfix(s, a, a + |r|);
    NoTripleStar(r);
  }

  /** Repairing the parity of a string without three newlines in a row does
      not create any. */
  lemma RepairKeepsNoTriple(s: string)
    requires NoTripleNewline(s)
    ensures NoTripleNewline(RepairStars(s))
  {
    if Count(s, '*') % 2 != 0 {
      TrimStarKeepsNoTriple(s);
    }
  }

  /** A summary has an even number of `*`, is at most twice its budget plus
      the closing `*`, and never has three newlines in a row. */
  lemma SummaryShape(raw: string, url: string, env: Settings,
                     text: string -> string, trimCut: string -> string)
    ensures var r := SummaryText(raw, url, env, text, trimCut);
      Count(r, '*') % 2 == 0 && |r| <= 2 * Budget(url) + 1 && NoTripleNewline(r)
  {
    var t := Truncate(Extracted(raw, env, text, trimCut), url);
    TruncateWithinBudget(Extracted(raw, env, text, trimCut), url);
    var c := Collapse(t);
    CollapseIsCollapsed(t);
    RepairKeepsNoTriple(c);
    RepairStarsEven(c);
    if Count(c, '*') % 2 != 0 {
      TrimInfix(c);
    }
  }

  /** Single newlines double when collapsed, so a summary can run past its
      budget: a text that fits the budget loses its last word and then grows
      by one character per newline. With a 791-character link (budget 9),
      `a\nb\nc\nd e` becomes `a\n\nb\n\nc\n\nd`, 10 characters. */
  lemma CollapseCanExceedBudget(text: string, word: string, url: string)
    requires ' ' !in text && ' ' !in word
    requires text != [] && word != [] && !IsSpace(text[0]) && !IsSpace(word[|word| - 1])
    requires |text| + 1 + |word| <= Budget(url)
    requires forall i | 0 <= i < |text| - 1 :: !(text[i] == '\n' && text[i + 1] == '\n')
    ensures |Collapse(Truncate(text + " " + word, url))| == |text| + Count(text, '\n')
  {
    LastWordDroppedWhenShort(text, word, url);
    CollapseLength(text);
  }

  /** Each newline in a string without two newlines in a row adds one
      character when collapsed. */
  lemma {:induction false} CollapseLength(s: string)
    requires forall i | 0 <= i < |s| - 1 :: !(s[i] == '\n' && s[i + 1] == '\n')
    ensures |Collapse(s)| == |s| + Count(s, '\n')
    decreases |s|
  {
    if s != [] {
      if s[0] == '\n' {
        assert NewlineRun(s) == 1 by {
          assert |s| == 1 || s[1] != '\n';
        }
      }
      CollapseLength(s[1..]);
    }
  }
}
