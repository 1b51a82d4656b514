/** The link extractor (bot.py:222-227) and the forwarded-post link (bot.py:251-252).

    The extractor is a leftmost search for the pattern
      https?://(t.me|telegram.me)/[A-Za-z0-9_]+(/[0-9]+)?(/[A-Za-z0-9_]+)?
    Python's engine tries start positions left to right and, at a position, takes
    the first alternative of each choice: the `s` of the scheme when present, each
    character class as far as it goes, each optional segment whenever it can start.
    Because everything after the handle is optional, that first path never has to
    backtrack; the model states it as `Maximal` and proves the parser returns
    exactly the one maximal match at the first position where any match starts. */
module Links {
  import opened Wrappers

  predicate IsWordChar(c: char)
  {
    ('a' <= c <= 'z') || ('A' <= c <= 'Z') || ('0' <= c <= '9') || c == '_'
  }

  predicate IsDigit(c: char)
  {
    '0' <= c <= '9'
  }

  predicate AllWord(s: string)
  {
    forall k :: 0 <= k < |s| ==> IsWordChar(s[k])
  }

  predicate AllDigits(s: string)
  {
    forall k :: 0 <= k < |s| ==> IsDigit(s[k])
  }

  datatype Scheme = Http | Https

  datatype Host = TMe | TelegramMe

  /** A parse of one match: `post` holds the digits of the optional numeric segment
      and `tail` the characters of the optional last segment, each without its
      leading `/` and empty when the segment is absent. */
  datatype PostLink = PostLink(scheme: Scheme, host: Host, handle: string, post: string, tail: string)

  function SchemeText(sc: Scheme): string
  {
    match sc
    case Http => "http://"
    case Https => "https://"
  }

  function HostText(h: Host): string
  {
    match h
    case TMe => "t.me/"
    case TelegramMe => "telegram.me/"
  }

  /** An optional path segment as it appears in the text. */
  function Segment(x: string): string
  {
    if x == "" then "" else "/" + x
  }

  /** The text a parse stands for. */
  function Render(p: PostLink): string
  {
    SchemeText(p.scheme) + HostText(p.host) + p.handle + Segment(p.post) + Segment(p.tail)
  }

  predicate WellFormed(p: PostLink)
  {
    |p.handle| > 0 && AllWord(p.handle) && AllDigits(p.post) && AllWord(p.tail)
  }

  /** `t` occurs in `s` starting at position i. */
  predicate OccursAt(s: string, i: nat, t: string)
  {
    i + |t| <= |s| && s[i..i + |t|] == t
  }

  /** The pattern matches `s` at position i, with parse p. */
  predicate MatchesAt(s: string, i: nat, p: PostLink)
  {
    WellFormed(p) && OccursAt(s, i, Render(p))
  }

  /** The parse is the one Python's engine takes, given the text `follow` right
      after it: no character class could have gone further, and no optional
      segment that could have started was skipped. */
  predicate Maximal(p: PostLink, follow: string)
  {
    && (p.tail != "" ==> follow == "" || !IsWordChar(follow[0]))
    && (p.tail == "" ==> !(|follow| >= 2 && follow[0] == '/' && IsWordChar(follow[1])))
    && (p.tail == "" && p.post != "" ==> follow == "" || !IsDigit(follow[0]))
    && (p.tail == "" && p.post == "" ==> follow == "" || !IsWordChar(follow[0]))
    && (p.post == "" && p.tail != "" ==> !IsDigit(p.tail[0]))
  }

  /** No match starts anywhere in `s`. */
  ghost predicate NoMatch(s: string)
  {
    forall j: nat, p :: j <= |s| ==> !MatchesAt(s, j, p)
  }

  /** p is the match the engine reports for `s`: it starts at i, nothing matches
      further left, and it is the maximal parse at i. */
  ghost predicate FirstMatch(s: string, i: nat, p: PostLink)
  {
    && MatchesAt(s, i, p)
    && Maximal(p, s[i + |Render(p)|..])
    && forall j: nat, q :: j < i ==> !MatchesAt(s, j, q)
  }

  // ---------------------------------------------------------------------------
  // The matcher.  Like the engine itself it works on positions: a successful
  // attempt reports where each group ends, and the text is cut out only at the end.

  /** End of the run of word characters starting at k. */
  function WordEnd(s: string, k: nat): (e: nat)
    requires k <= |s|
    ensures k <= e <= |s|
    decreases |s| - k
  {
    if k < |s| && IsWordChar(s[k]) then WordEnd(s, k + 1) else k
  }

  /** End of the run of digits starting at k. */
  function DigitEnd(s: string, k: nat): (e: nat)
    requires k <= |s|
    ensures k <= e <= |s|
    decreases |s| - k
  {
    if k < |s| && IsDigit(s[k]) then DigitEnd(s, k + 1) else k
  }

  /** `https?://`, trying the `s` first. */
  function SchemeAt(s: string, i: nat): Option<Scheme>
  {
    if OccursAt(s, i, "https://") then Some(Https)
    else if OccursAt(s, i, "http://") then Some(Http)
    else None
  }

  /** `(t.me|telegram.me)/`. */
  function HostAt(s: string, j: nat): Option<Host>
  {
    if OccursAt(s, j, "t.me/") then Some(TMe)
    else if OccursAt(s, j, "telegram.me/") then Some(TelegramMe)
    else None
  }

  /** End of `(/[0-9]+)?` taken at e: e itself when the segment cannot start. */
  function PostEnd(s: string, e: nat): (x: nat)
    requires e <= |s|
    ensures e <= x <= |s|
  {
    if e + 1 < |s| && s[e] == '/' && IsDigit(s[e + 1]) then DigitEnd(s, e + 1) else e
  }

  /** End of `(/[A-Za-z0-9_]+)?` taken at e: e itself when the segment cannot start. */
  function TailEnd(s: string, e: nat): (x: nat)
    requires e <= |s|
    ensures e <= x <= |s|
  {
    if e + 1 < |s| && s[e] == '/' && IsWordChar(s[e + 1]) then WordEnd(s, e + 1) else e
  }

  /** Where the groups of a successful attempt end. */
  datatype Span = Span(scheme: Scheme, host: Host, handleEnd: nat, postEnd: nat, tailEnd: nat)

  function HandleStart(i: nat, sc: Scheme, h: Host): nat
  {
    i + |SchemeText(sc)| + |HostText(h)|
  }

  /** The engine's attempt at start position i. */
  function ParseAt(s: string, i: nat): (r: Option<Span>)
    requires i <= |s|
    ensures r.Some? ==> HandleStart(i, r.value.scheme, r.value.host) < r.value.handleEnd
    ensures r.Some? ==> r.value.handleEnd <= r.value.postEnd <= r.value.tailEnd <= |s|
  {
    match SchemeAt(s, i)
    case None => None
    case Some(sc) =>
      match HostAt(s, i + |SchemeText(sc)|)
      case None => None
      case Some(h) =>
        var k := HandleStart(i, sc, h);
        if k > |s| then None
        else
          var e := WordEnd(s, k);
          if e == k then None
          else Some(Span(sc, h, e, PostEnd(s, e), TailEnd(s, PostEnd(s, e))))
  }

  /** What a successful attempt at i with result sp has seen, stated without
      running the attempt: the literal parts occur, and each group ends where its
      scan stops. */
  predicate Shaped(s: string, i: nat, sp: Span)
  {
    var k := HandleStart(i, sp.scheme, sp.host);
    && OccursAt(s, i, SchemeText(sp.scheme))
    && OccursAt(s, i + |SchemeText(sp.scheme)|, HostText(sp.host))
    && k < sp.handleEnd <= |s|
    && sp.handleEnd == WordEnd(s, k)
    && sp.postEnd == PostEnd(s, sp.handleEnd)
    && sp.tailEnd == TailEnd(s, sp.postEnd)
  }

  /** The engine's attempt fails at every start position from a up to, not
      including, b. */
  predicate FailsBetween(s: string, a: nat, b: nat)
    requires b <= |s| + 1
    decreases b - a
  {
    a >= b || (ParseAt(s, a).None? && FailsBetween(s, a + 1, b))
  }

  lemma {:induction false} FailsBetweenAt(s: string, a: nat, b: nat, j: nat)
    requires b <= |s| + 1 && FailsBetween(s, a, b) && a <= j < b
    ensures ParseAt(s, j).None?
    decreases j - a
  {
    if a < j {
      FailsBetweenAt(s, a + 1, b, j);
    }
  }

  /** re.search: try every start position from i on, left to right. */
  function FindFrom(s: string, i: nat): (r: Option<(nat, Span)>)
    requires i <= |s|
    ensures r.Some? ==> i <= r.value.0 <= |s| && ParseAt(s, r.value.0) == Some(r.value.1)
    ensures r.Some? ==> FailsBetween(s, i, r.value.0)
    ensures r.None? ==> FailsBetween(s, i, |s| + 1)
    decreases |s| - i
  {
    match ParseAt(s, i)
    case Some(sp) => Some((i, sp))
    case None => if i == |s| then None else FindFrom(s, i + 1)
  }

  /** extract_telegram_link: the text of the first match, or "" when there is none. */
  function Extract(s: string): string
  {
    match FindFrom(s, 0)
    case None => ""
    case Some((i, sp)) => s[i..sp.tailEnd]
  }

  // ---------------------------------------------------------------------------
  // From positions to parses

  /** The text of an optional segment between positions a and b, without its `/`. */
  function Inner(s: string, a: nat, b: nat): string
    requires a <= b <= |s|
  {
    if a == b then "" else s[a + 1..b]
  }

  /** The parse a successful attempt at i stands for. */
  function LinkOf(s: string, i: nat, sp: Span): PostLink
    requires HandleStart(i, sp.scheme, sp.host) <= sp.handleEnd <= sp.postEnd <= sp.tailEnd <= |s|
  {
    PostLink(sp.scheme, sp.host, s[HandleStart(i, sp.scheme, sp.host)..sp.handleEnd],
             Inner(s, sp.handleEnd, sp.postEnd), Inner(s, sp.postEnd, sp.tailEnd))
  }

  /** Where the groups of parse p end when it starts at i. */
  function SpanOf(i: nat, p: PostLink): Span
  {
    var e := HandleStart(i, p.scheme, p.host) + |p.handle|;
    var e' := e + |Segment(p.post)|;
    Span(p.scheme, p.host, e, e', e' + |Segment(p.tail)|)
  }

  // ---------------------------------------------------------------------------
  // Proofs about the matcher

  lemma OccursChar(s: string, i: nat, t: string, k: nat)
    requires k < |t|
    ensures OccursAt(s, i, t) ==> s[i + k] == t[k]
  {
    if OccursAt(s, i, t) {
      assert s[i + k] == s[i..i + |t|][k];
    }
  }

  lemma OccursConcat(s: string, i: nat, a: string, b: string)
    requires OccursAt(s, i, a) && OccursAt(s, i + |a|, b)
    ensures OccursAt(s, i, a + b)
  {
    assert s[i..i + |a| + |b|] == s[i..i + |a|] + s[i + |a|..i + |a| + |b|];
  }

  lemma OccursSplit(s: string, i: nat, a: string, b: string)
    requires OccursAt(s, i, a + b)
    ensures OccursAt(s, i, a) && OccursAt(s, i + |a|, b)
  {
    assert s[i..i + |a|] == (a + b)[..|a|];
    assert s[i + |a|..i + |a| + |b|] == (a + b)[|a|..];
  }

  /** The word-character scan stops at the first character that is not one. */
  lemma {:induction false} WordEndSpec(s: string, k: nat)
    requires k <= |s|
    ensures AllWord(s[k..WordEnd(s, k)])
    ensures WordEnd(s, k) == |s| || !IsWordChar(s[WordEnd(s, k)])
    decreases |s| - k
  {
    if k < |s| && IsWordChar(s[k]) {
      WordEndSpec(s, k + 1);
      var e := WordEnd(s, k);
      assert s[k..e] == [s[k]] + s[k + 1..e];
    }
  }

  lemma {:induction false} DigitEndSpec(s: string, k: nat)
    requires k <= |s|
    ensures AllDigits(s[k..DigitEnd(s, k)])
    ensures DigitEnd(s, k) == |s| || !IsDigit(s[DigitEnd(s, k)])
    decreases |s| - k
  {
    if k < |s| && IsDigit(s[k]) {
      DigitEndSpec(s, k + 1);
      var e := DigitEnd(s, k);
      assert s[k..e] == [s[k]] + s[k + 1..e];
    }
  }

  /** A run of word characters that cannot be extended ends where WordEnd says. */
  lemma {:induction false} WordEndExact(s: string, k: nat, e: nat)
    requires k <= e <= |s| && AllWord(s[k..e])
    requires e == |s| || !IsWordChar(s[e])
    ensures WordEnd(s, k) == e
    decreases e - k
  {
    if k < e {
      assert s[k] == s[k..e][0];
      assert s[k + 1..e] == s[k..e][1..];
      WordEndExact(s, k + 1, e);
    }
  }

  lemma {:induction false} DigitEndExact(s: string, k: nat, e: nat)
    requires k <= e <= |s| && AllDigits(s[k..e])
    requires e == |s| || !IsDigit(s[e])
    ensures DigitEnd(s, k) == e
    decreases e - k
  {
    if k < e {
      assert s[k] == s[k..e][0];
      assert s[k + 1..e] == s[k..e][1..];
      DigitEndExact(s, k + 1, e);
    }
  }

  lemma SchemeAtSpec(s: string, i: nat)
    ensures SchemeAt(s, i) == Some(Https) <==> OccursAt(s, i, "https://")
    ensures SchemeAt(s, i) == Some(Http) <==> OccursAt(s, i, "http://")
  {
    OccursChar(s, i, "https://", 4);
    OccursChar(s, i, "http://", 4);
  }

  lemma HostAtSpec(s: string, j: nat)
    ensures HostAt(s, j) == Some(TMe) <==> OccursAt(s, j, "t.me/")
    ensures HostAt(s, j) == Some(TelegramMe) <==> OccursAt(s, j, "telegram.me/")
  {
    OccursChar(s, j, "t.me/", 1);
    OccursChar(s, j, "telegram.me/", 1);
  }

  /** The numeric segment the parser takes is a `/` and digits that cannot be
      extended, and it is empty exactly when no such segment can start. */
  lemma PostEndSpec(s: string, e: nat)
    requires e <= |s|
    ensures var x := PostEnd(s, e); var post := Inner(s, e, x);
      && x == e + |Segment(post)|
      && OccursAt(s, e, Segment(post)) && AllDigits(post)
      && (post == "" <==> !(e + 1 < |s| && s[e] == '/' && IsDigit(s[e + 1])))
      && (post != "" ==> x == |s| || !IsDigit(s[x]))
  {
    var x := PostEnd(s, e);
    if e + 1 < |s| && s[e] == '/' && IsDigit(s[e + 1]) {
      DigitEndSpec(s, e + 1);
      assert s[e..x] == "/" + s[e + 1..x];
      assert s[e + 1..x][0] == s[e + 1];
    }
  }

  /** The last segment the parser takes is a `/` and word characters that cannot
      be extended, and it is empty exactly when no such segment can start. */
  lemma TailEndSpec(s: string, e: nat)
    requires e <= |s|
    ensures var x := TailEnd(s, e); var tail := Inner(s, e, x);
      && x == e + |Segment(tail)|
      && OccursAt(s, e, Segment(tail)) && AllWord(tail)
      && (tail == "" <==> !(e + 1 < |s| && s[e] == '/' && IsWordChar(s[e + 1])))
      && (tail != "" ==> x == |s| || !IsWordChar(s[x]))
  {
    var x := TailEnd(s, e);
    if e + 1 < |s| && s[e] == '/' && IsWordChar(s[e + 1]) {
      WordEndSpec(s, e + 1);
      assert s[e..x] == "/" + s[e + 1..x];
      assert s[e + 1..x][0] == s[e + 1];
    }
  }

  /** The pieces found one after the other, put together, occur at i. */
  lemma ParsedOccurs(s: string, i: nat, p: PostLink)
    requires OccursAt(s, i, SchemeText(p.scheme))
    requires OccursAt(s, i + |SchemeText(p.scheme)|, HostText(p.host))
    requires OccursAt(s, HandleStart(i, p.scheme, p.host), p.handle)
    requires OccursAt(s, HandleStart(i, p.scheme, p.host) + |p.handle|, Segment(p.post))
    requires OccursAt(s, HandleStart(i, p.scheme, p.host) + |p.handle| + |Segment(p.post)|, Segment(p.tail))
    ensures OccursAt(s, i, Render(p))
  {
    var a := SchemeText(p.scheme);
    var b := HostText(p.host);
    OccursConcat(s, i, a, b);
    OccursConcat(s, i, a + b, p.handle);
    OccursConcat(s, i, a + b + p.handle, Segment(p.post));
    OccursConcat(s, i, a + b + p.handle + Segment(p.post), Segment(p.tail));
  }

  /** The pieces of a match each occur where they should. */
  lemma MatchPieces(s: string, i: nat, p: PostLink)
    requires OccursAt(s, i, Render(p))
    ensures OccursAt(s, i, SchemeText(p.scheme))
    ensures OccursAt(s, i + |SchemeText(p.scheme)|, HostText(p.host))
    ensures OccursAt(s, HandleStart(i, p.scheme, p.host), p.handle)
    ensures OccursAt(s, HandleStart(i, p.scheme, p.host) + |p.handle|, Segment(p.post))
    ensures OccursAt(s, HandleStart(i, p.scheme, p.host) + |p.handle| + |Segment(p.post)|, Segment(p.tail))
  {
    var a := SchemeText(p.scheme);
    var b := HostText(p.host);
    OccursSplit(s, i, a + b + p.handle + Segment(p.post), Segment(p.tail));
    OccursSplit(s, i, a + b + p.handle, Segment(p.post));
    OccursSplit(s, i, a + b, p.handle);
    OccursSplit(s, i, a, b);
  }

  /** The stopping conditions of the parser's scans, read as `Maximal`. */
  lemma MaximalFromEnds(s: string, p: PostLink, e: nat, e': nat, end: nat)
    requires e' == e + |Segment(p.post)| && end == e' + |Segment(p.tail)| && end <= |s|
    requires OccursAt(s, e, Segment(p.post)) && OccursAt(s, e', Segment(p.tail))
    requires e == |s| || !IsWordChar(s[e])
    requires p.post == "" <==> !(e + 1 < |s| && s[e] == '/' && IsDigit(s[e + 1]))
    requires p.post != "" ==> e' == |s| || !IsDigit(s[e'])
    requires p.tail == "" <==> !(e' + 1 < |s| && s[e'] == '/' && IsWordChar(s[e' + 1]))
    requires p.tail != "" ==> end == |s| || !IsWordChar(s[end])
    ensures Maximal(p, s[end..])
  {
    var follow := s[end..];
    if |follow| > 0 {
      assert follow[0] == s[end];
    }
    if |follow| > 1 {
      assert follow[1] == s[end + 1];
    }
    if p.post == "" && p.tail != "" {
      OccursChar(s, e', Segment(p.tail), 1);
    }
  }

  /** An attempt succeeds with sp exactly when sp is shaped like its result. */
  lemma ParseAtShaped(s: string, i: nat, sp: Span)
    requires i <= |s|
    ensures ParseAt(s, i) == Some(sp) <==> Shaped(s, i, sp)
  {
    SchemeAtOccurs(s, i);
    HostAtOccurs(s, i + |SchemeText(sp.scheme)|);
    if OccursAt(s, i, SchemeText(sp.scheme)) {
      SchemeExact(s, i, sp.scheme);
      if OccursAt(s, i + |SchemeText(sp.scheme)|, HostText(sp.host)) {
        HostExact(s, i + |SchemeText(sp.scheme)|, sp.host);
      }
    }
  }

  /** The groups a successful attempt cuts out occur where it found them, are
      made of the characters their classes allow, and cannot be extended. */
  lemma GroupsOccur(s: string, k: nat, e: nat, e': nat, end: nat)
    requires k < e <= |s| && e == WordEnd(s, k) && e' == PostEnd(s, e) && end == TailEnd(s, e')
    ensures OccursAt(s, k, s[k..e]) && AllWord(s[k..e])
    ensures OccursAt(s, e, Segment(Inner(s, e, e'))) && e' == e + |Segment(Inner(s, e, e'))|
    ensures OccursAt(s, e', Segment(Inner(s, e', end))) && end == e' + |Segment(Inner(s, e', end))|
    ensures AllDigits(Inner(s, e, e')) && AllWord(Inner(s, e', end))
  {
    WordEndSpec(s, k);
    PostEndSpec(s, e);
    TailEndSpec(s, e');
  }

  lemma GroupsMaximal(s: string, k: nat, e: nat, e': nat, end: nat, sc: Scheme, h: Host)
    requires k < e <= |s| && e == WordEnd(s, k) && e' == PostEnd(s, e) && end == TailEnd(s, e')
    ensures Maximal(PostLink(sc, h, s[k..e], Inner(s, e, e'), Inner(s, e', end)), s[end..])
  {
    var p := PostLink(sc, h, s[k..e], Inner(s, e, e'), Inner(s, e', end));
    WordEndSpec(s, k);
    PostEndSpec(s, e);
    TailEndSpec(s, e');
    MaximalFromEnds(s, p, e, e', end);
  }

  lemma SchemeAtOccurs(s: string, i: nat)
    ensures SchemeAt(s, i).Some? ==> OccursAt(s, i, SchemeText(SchemeAt(s, i).value))
  {
  }

  lemma HostAtOccurs(s: string, j: nat)
    ensures HostAt(s, j).Some? ==> OccursAt(s, j, HostText(HostAt(s, j).value))
  {
  }

  /** The parse a shaped span stands for is a match that ends at the span's end. */
  lemma ShapedMatches(s: string, i: nat, sp: Span)
    requires Shaped(s, i, sp)
    ensures MatchesAt(s, i, LinkOf(s, i, sp))
    ensures i + |Render(LinkOf(s, i, sp))| == sp.tailEnd
  {
    var p := LinkOf(s, i, sp);
    var k := HandleStart(i, sp.scheme, sp.host);
    GroupsOccur(s, k, sp.handleEnd, sp.postEnd, sp.tailEnd);
    PiecesMatch(s, i, p);
  }

  /** The parse a shaped span stands for is maximal. */
  lemma ShapedMaximal(s: string, i: nat, sp: Span)
    requires Shaped(s, i, sp)
    ensures Maximal(LinkOf(s, i, sp), s[sp.tailEnd..])
  {
    var k := HandleStart(i, sp.scheme, sp.host);
    GroupsMaximal(s, k, sp.handleEnd, sp.postEnd, sp.tailEnd, sp.scheme, sp.host);
  }

  /** Pieces found one after the other make a match at i. */
  lemma PiecesMatch(s: string, i: nat, p: PostLink)
    requires OccursAt(s, i, SchemeText(p.scheme))
    requires OccursAt(s, i + |SchemeText(p.scheme)|, HostText(p.host))
    requires OccursAt(s, HandleStart(i, p.scheme, p.host), p.handle)
    requires OccursAt(s, HandleStart(i, p.scheme, p.host) + |p.handle|, Segment(p.post))
    requires OccursAt(s, HandleStart(i, p.scheme, p.host) + |p.handle| + |Segment(p.post)|, Segment(p.tail))
    requires WellFormed(p)
    ensures MatchesAt(s, i, p)
    ensures |Render(p)| == |SchemeText(p.scheme)| + |HostText(p.host)| + |p.handle| + |Segment(p.post)| + |Segment(p.tail)|
  {
    ParsedOccurs(s, i, p);
  }

  /** What a successful attempt reports is a match, and the maximal one. */
  lemma ParseAtSound(s: string, i: nat, sp: Span)
    requires i <= |s| && ParseAt(s, i) == Some(sp)
    ensures var p := LinkOf(s, i, sp);
      && MatchesAt(s, i, p)
      && i + |Render(p)| == sp.tailEnd
      && Maximal(p, s[sp.tailEnd..])
  {
    ParseAtShaped(s, i, sp);
    ShapedMatches(s, i, sp);
    ShapedMaximal(s, i, sp);
  }

  lemma SchemeExact(s: string, i: nat, sc: Scheme)
    requires OccursAt(s, i, SchemeText(sc))
    ensures SchemeAt(s, i) == Some(sc)
  {
    SchemeAtSpec(s, i);
  }

  lemma HostExact(s: string, j: nat, h: Host)
    requires OccursAt(s, j, HostText(h))
    ensures HostAt(s, j) == Some(h)
  {
    HostAtSpec(s, j);
  }

  /** Wherever a match starts, the engine's attempt there succeeds. */
  lemma ParseAtComplete(s: string, i: nat, p: PostLink)
    requires MatchesAt(s, i, p)
    ensures ParseAt(s, i).Some?
  {
    MatchPieces(s, i, p);
    SchemeExact(s, i, p.scheme);
    HostExact(s, i + |SchemeText(p.scheme)|, p.host);
    var k := HandleStart(i, p.scheme, p.host);
    assert s[k] == p.handle[0] by {
      OccursChar(s, k, p.handle, 0);
    }
  }

  /** A position where the engine's attempt fails starts no match. */
  lemma ParseAtNone(s: string, i: nat)
    requires i <= |s| && ParseAt(s, i).None?
    ensures forall q :: !MatchesAt(s, i, q)
  {
    forall q | MatchesAt(s, i, q)
      ensures false
    {
      ParseAtComplete(s, i, q);
    }
  }

  /** The handle of a maximal match stops where the word-character scan stops. */
  lemma HandleExact(s: string, p: PostLink, k: nat, e: nat, e': nat, end: nat)
    requires OccursAt(s, k, p.handle) && AllWord(p.handle) && e == k + |p.handle|
    requires OccursAt(s, e, Segment(p.post)) && e' == e + |Segment(p.post)|
    requires OccursAt(s, e', Segment(p.tail)) && end == e' + |Segment(p.tail)|
    requires Maximal(p, s[end..])
    ensures WordEnd(s, k) == e
  {
    assert e == |s| || !IsWordChar(s[e]) by {
      if p.post != "" {
        OccursChar(s, e, Segment(p.post), 0);
      } else if p.tail != "" {
        OccursChar(s, e, Segment(p.tail), 0);
      } else if e < |s| {
        assert s[e] == s[end..][0];
      }
    }
    assert s[k..e] == p.handle;
    WordEndExact(s, k, e);
  }

  /** The numeric segment of a maximal match ends where the parser ends it. */
  lemma PostExact(s: string, p: PostLink, e: nat, e': nat, end: nat)
    requires OccursAt(s, e, Segment(p.post)) && AllDigits(p.post) && e' == e + |Segment(p.post)|
    requires OccursAt(s, e', Segment(p.tail)) && AllWord(p.tail) && end == e' + |Segment(p.tail)|
    requires Maximal(p, s[end..])
    ensures PostEnd(s, e) == e'
  {
    var follow := s[end..];
    if p.post != "" {
      OccursChar(s, e, Segment(p.post), 0);
      OccursChar(s, e, Segment(p.post), 1);
      assert s[e + 1..e'] == p.post by {
        assert s[e..e'] == "/" + p.post;
        assert s[e + 1..e'] == s[e..e'][1..];
      }
      assert e' == |s| || !IsDigit(s[e']) by {
        if p.tail != "" {
          OccursChar(s, e', Segment(p.tail), 0);
        } else if e' < |s| {
          assert s[e'] == follow[0];
        }
      }
      DigitEndExact(s, e + 1, e');
    } else if p.tail != "" {
      OccursChar(s, e, Segment(p.tail), 1);
    } else if e + 1 < |s| {
      assert s[e] == follow[0] && s[e + 1] == follow[1];
    }
  }

  /** The last segment of a maximal match ends where the parser ends it. */
  lemma TailExact(s: string, p: PostLink, e': nat, end: nat)
    requires OccursAt(s, e', Segment(p.tail)) && AllWord(p.tail) && end == e' + |Segment(p.tail)|
    requires Maximal(p, s[end..])
    ensures TailEnd(s, e') == end
  {
    var follow := s[end..];
    if p.tail != "" {
      OccursChar(s, e', Segment(p.tail), 0);
      OccursChar(s, e', Segment(p.tail), 1);
      assert s[e' + 1..end] == p.tail by {
        assert s[e'..end] == "/" + p.tail;
        assert s[e' + 1..end] == s[e'..end][1..];
      }
      assert end == |s| || !IsWordChar(s[end]) by {
        if end < |s| {
          assert s[end] == follow[0];
        }
      }
      WordEndExact(s, e' + 1, end);
    } else if e' + 1 < |s| {
      assert s[e'] == follow[0] && s[e' + 1] == follow[1];
    }
  }

  /** The maximal parse of a match is shaped like a successful attempt. */
  lemma MaximalShaped(s: string, i: nat, p: PostLink)
    requires MatchesAt(s, i, p)
    requires Maximal(p, s[i + |Render(p)|..])
    ensures Shaped(s, i, SpanOf(i, p))
  {
    MatchPieces(s, i, p);
    var sp := SpanOf(i, p);
    assert sp.tailEnd == i + |Render(p)|;
    MaximalEnds(s, p, HandleStart(i, p.scheme, p.host), sp.handleEnd, sp.postEnd, sp.tailEnd);
  }

  /** Cutting the groups of a match back out of the text gives the parse. */
  lemma MatchedLink(s: string, i: nat, p: PostLink)
    requires MatchesAt(s, i, p)
    ensures HandleStart(i, p.scheme, p.host) <= SpanOf(i, p).handleEnd <= SpanOf(i, p).postEnd
         <= SpanOf(i, p).tailEnd <= |s|
    ensures LinkOf(s, i, SpanOf(i, p)) == p
  {
    MatchPieces(s, i, p);
    var sp := SpanOf(i, p);
    MaximalText(s, p, HandleStart(i, p.scheme, p.host), sp.handleEnd, sp.postEnd, sp.tailEnd);
  }

  /** Each group of a maximal match ends where the parser's scan for it stops. */
  lemma MaximalEnds(s: string, p: PostLink, k: nat, e: nat, e': nat, end: nat)
    requires WellFormed(p) && OccursAt(s, k, p.handle) && e == k + |p.handle|
    requires OccursAt(s, e, Segment(p.post)) && e' == e + |Segment(p.post)|
    requires OccursAt(s, e', Segment(p.tail)) && end == e' + |Segment(p.tail)|
    requires Maximal(p, s[end..])
    ensures WordEnd(s, k) == e && PostEnd(s, e) == e' && TailEnd(s, e') == end
  {
    HandleExact(s, p, k, e, e', end);
    PostExact(s, p, e, e', end);
    TailExact(s, p, e', end);
  }

  /** The groups of a match are cut back out of the text between their ends. */
  lemma MaximalText(s: string, p: PostLink, k: nat, e: nat, e': nat, end: nat)
    requires OccursAt(s, k, p.handle) && e == k + |p.handle|
    requires OccursAt(s, e, Segment(p.post)) && e' == e + |Segment(p.post)|
    requires OccursAt(s, e', Segment(p.tail)) && end == e' + |Segment(p.tail)|
    ensures s[k..e] == p.handle && Inner(s, e, e') == p.post && Inner(s, e', end) == p.tail
  {
    SegmentText(s, e, p.post);
    SegmentText(s, e', p.tail);
  }

  /** The maximal parse at a position is the one the engine reports there, so
      there is exactly one. */
  lemma ParseAtExact(s: string, i: nat, p: PostLink)
    requires MatchesAt(s, i, p)
    requires Maximal(p, s[i + |Render(p)|..])
    ensures ParseAt(s, i) == Some(SpanOf(i, p))
    ensures LinkOf(s, i, SpanOf(i, p)) == p
  {
    MaximalShaped(s, i, p);
    ParseAtShaped(s, i, SpanOf(i, p));
    MatchedLink(s, i, p);
  }

  /** The text of a segment that occurs at a is what Inner cuts out again. */
  lemma SegmentText(s: string, a: nat, x: string)
    requires OccursAt(s, a, Segment(x))
    ensures Inner(s, a, a + |Segment(x)|) == x
  {
    if x != "" {
      assert s[a..a + |Segment(x)|] == "/" + x;
      assert s[a + 1..a + |Segment(x)|] == s[a..a + |Segment(x)|][1..];
    }
  }

  /** re.search's answer: the engine's first successful attempt is the first
      match and the maximal one there. */
  lemma FindFromIsFirstMatch(s: string, i: nat, sp: Span)
    requires FindFrom(s, 0) == Some((i, sp))
    ensures FirstMatch(s, i, LinkOf(s, i, sp))
    ensures Extract(s) == Render(LinkOf(s, i, sp))
  {
    FirstSuccessIsFirstMatch(s, i, sp);
    SuccessText(s, i, sp);
  }

  /** The text a successful attempt covers is its parse, rendered. */
  lemma SuccessText(s: string, i: nat, sp: Span)
    requires i <= |s| && ParseAt(s, i) == Some(sp)
    ensures s[i..sp.tailEnd] == Render(LinkOf(s, i, sp))
  {
    ParseAtShaped(s, i, sp);
    ShapedText(s, i, sp);
  }

  /** A shaped attempt covers exactly the text of its parse. */
  lemma ShapedText(s: string, i: nat, sp: Span)
    requires Shaped(s, i, sp)
    ensures sp.tailEnd <= |s|
    ensures s[i..sp.tailEnd] == Render(LinkOf(s, i, sp))
  {
    ShapedMatches(s, i, sp);
  }

  /** The first attempt that succeeds reports the first match. */
  lemma FirstSuccessIsFirstMatch(s: string, i: nat, sp: Span)
    requires i <= |s| && ParseAt(s, i) == Some(sp) && FailsBetween(s, 0, i)
    ensures FirstMatch(s, i, LinkOf(s, i, sp))
  {
    ParseAtSound(s, i, sp);
    NothingBefore(s, i);
  }

  /** Where every attempt before i fails, no match starts before i. */
  lemma NothingBefore(s: string, i: nat)
    requires i <= |s| + 1 && FailsBetween(s, 0, i)
    ensures forall j: nat, q :: j < i ==> !MatchesAt(s, j, q)
  {
    forall j: nat, q | j < i
      ensures !MatchesAt(s, j, q)
    {
      if MatchesAt(s, j, q) {
        FailsBetweenAt(s, 0, i, j);
        ParseAtComplete(s, j, q);
      }
    }
  }

  /** The extractor returns "" exactly when the pattern occurs nowhere in the text,
      and otherwise the text of the first, maximal match. */
  lemma ExtractSpec(s: string)
    ensures Extract(s) == "" <==> NoMatch(s)
    ensures Extract(s) != "" ==> exists i: nat, p :: FirstMatch(s, i, p) && Extract(s) == Render(p)
  {
    EmptyMeansNoMatch(s);
    NoMatchMeansEmpty(s);
    FoundIsFirstMatch(s);
  }

  /** An empty result means the pattern occurs nowhere. */
  lemma EmptyMeansNoMatch(s: string)
    ensures Extract(s) == "" ==> NoMatch(s)
  {
    match FindFrom(s, 0)
    case None =>
      NothingBefore(s, |s| + 1);
    case Some((i, sp)) =>
      FindFromIsFirstMatch(s, i, sp);
      assert |Render(LinkOf(s, i, sp))| > 0;
  }

  /** Where the pattern occurs nowhere, the result is empty. */
  lemma NoMatchMeansEmpty(s: string)
    ensures NoMatch(s) ==> Extract(s) == ""
  {
    match FindFrom(s, 0)
    case None =>
    case Some((i, sp)) =>
      FindFromIsFirstMatch(s, i, sp);
  }

  /** A non-empty result is the text of the first, maximal match. */
  lemma FoundIsFirstMatch(s: string)
    ensures Extract(s) != "" ==> exists i: nat, p :: FirstMatch(s, i, p) && Extract(s) == Render(p)
  {
    match FindFrom(s, 0)
    case None =>
    case Some((i, sp)) =>
      FindFromIsFirstMatch(s, i, sp);
  }

  /** The extractor's result begins with `http://` or `https://`, then `t.me/` or
      `telegram.me/`. */
  lemma ExtractShape(s: string)
    requires Extract(s) != ""
    ensures OccursAt(Extract(s), 0, "http://t.me/") || OccursAt(Extract(s), 0, "https://t.me/") ||
            OccursAt(Extract(s), 0, "http://telegram.me/") || OccursAt(Extract(s), 0, "https://telegram.me/")
  {
    ExtractSpec(s);
    var i: nat, p :| FirstMatch(s, i, p) && Extract(s) == Render(p);
    RenderShape(p);
  }

  /** Every rendered parse starts with one of the four scheme-and-host prefixes. */
  lemma RenderShape(p: PostLink)
    ensures var r := Render(p);
      || OccursAt(r, 0, "http://t.me/") || OccursAt(r, 0, "https://t.me/")
      || OccursAt(r, 0, "http://telegram.me/") || OccursAt(r, 0, "https://telegram.me/")
  {
    var r := Render(p);
    var prefix := SchemeText(p.scheme) + HostText(p.host);
    assert OccursAt(r, 0, prefix) by {
      assert r == prefix + (p.handle + Segment(p.post) + Segment(p.tail));
      assert r[0..|prefix|] == prefix;
    }
    match (p.scheme, p.host)
    case (Http, TMe) => assert prefix == "http://t.me/";
    case (Https, TMe) => assert prefix == "https://t.me/";
    case (Http, TelegramMe) => assert prefix == "http://telegram.me/";
    case (Https, TelegramMe) => assert prefix == "https://telegram.me/";
  }

  /** Running the extractor on its own result gives that result back. */
  lemma ExtractIdempotent(s: string)
    ensures Extract(Extract(s)) == Extract(s)
  {
    ExtractSpec(s);
    if Extract(s) != "" {
      var i: nat, p :| FirstMatch(s, i, p) && Extract(s) == Render(p);
      MaximalPrefix(p, s[i + |Render(p)|..]);
      WholeTextIsItsOwnMatch(p);
    }
  }

  /** Maximality only looks at what follows, and the end of the text never
      extends a match. */
  lemma MaximalPrefix(p: PostLink, follow: string)
    requires WellFormed(p) && Maximal(p, follow)
    ensures Maximal(p, "")
  {
  }

  /** A maximal parse that is the whole text is what the extractor returns. */
  lemma WholeTextIsItsOwnMatch(p: PostLink)
    requires WellFormed(p) && Maximal(p, "")
    ensures Extract(Render(p)) == Render(p)
  {
    var r := Render(p);
    assert OccursAt(r, 0, r) by { assert r[0..|r|] == r; }
    assert r[|Render(p)|..] == "";
    ParseAtExact(r, 0, p);
    assert SpanOf(0, p).tailEnd == |r|;
    assert FindFrom(r, 0) == Some((0, SpanOf(0, p)));
  }

  /** A text has at most one first match. */
  lemma FirstMatchUnique(s: string, i: nat, p: PostLink, i2: nat, p2: PostLink)
    requires FirstMatch(s, i, p) && FirstMatch(s, i2, p2)
    ensures i == i2 && p == p2
  {
    assert i >= i2;
    assert i2 >= i;
    ParseAtExact(s, i, p);
    ParseAtExact(s, i, p2);
  }

  /** Whatever the first maximal match of a text is, the extractor returns it. */
  lemma ExtractFindsFirstMatch(s: string, i: nat, p: PostLink)
    requires FirstMatch(s, i, p)
    ensures Extract(s) == Render(p)
  {
    ExtractSpec(s);
    assert !NoMatch(s);
    var i2: nat, p2 :| FirstMatch(s, i2, p2) && Extract(s) == Render(p2);
    FirstMatchUnique(s, i, p, i2, p2);
  }

  /** Every rendered parse starts with `ht`. */
  lemma RenderStartsHt(p: PostLink)
    ensures |Render(p)| >= 2 && Render(p)[0] == 'h' && Render(p)[1] == 't'
  {
    var prefix := SchemeText(p.scheme) + HostText(p.host);
    assert Render(p) == prefix + (p.handle + Segment(p.post) + Segment(p.tail));
  }

  lemma SliceThree(a: string, b: string, c: string)
    ensures (a + b + c)[|a|..|a| + |b|] == b
    ensures (a + b + c)[|a| + |b|..] == c
  {
  }

  /** Where `h` is never followed by `t` before position n, no match starts
      before n. */
  lemma NoMatchWithoutHt(s: string, n: nat)
    requires n < |s|
    requires forall j :: 0 <= j < n ==> s[j] != 'h' || s[j + 1] != 't'
    ensures forall j: nat, q :: j < n ==> !MatchesAt(s, j, q)
  {
    forall j: nat, q | j < n
      ensures !MatchesAt(s, j, q)
    {
      RenderStartsHt(q);
      OccursChar(s, j, Render(q), 0);
      OccursChar(s, j, Render(q), 1);
    }
  }

  /** In the example sentence `h` and `t` first meet at position 15. */
  lemma SentenceLetters(s: string)
    requires s == "check this out " + "https://t.me/news/55" + " cool post"
    ensures forall j :: 0 <= j < 15 ==> s[j] != 'h' || s[j + 1] != 't'
  {
    assert s[..16] == "check this out h";
  }

  /** A post link in the middle of a sentence is found, without the text around it. */
  lemma ExtractFromSentence()
    ensures Extract("check this out " + "https://t.me/news/55" + " cool post") == "https://t.me/news/55"
  {
    var before, link, after := "check this out ", "https://t.me/news/55", " cool post";
    var s := before + link + after;
    var p := PostLink(Https, TMe, "news", "55", "");
    assert Render(p) == link;
    SliceThree(before, link, after);
    SentenceLetters(s);
    NoMatchWithoutHt(s, 15);
    assert FirstMatch(s, 15, p);
    ExtractFindsFirstMatch(s, 15, p);
  }

  // ---------------------------------------------------------------------------
  // The forwarded-post link

  function DigitChar(d: nat): (c: char)
    requires d < 10
    ensures IsDigit(c)
  {
    "0123456789"[d]
  }

  /** Python's str() of a non-negative int. */
  function Decimal(n: nat): (r: string)
    ensures |r| > 0 && AllDigits(r)
  {
    if n < 10 then [DigitChar(n)] else Decimal(n / 10) + [DigitChar(n % 10)]
  }

  /** Python's str() of an int: a minus sign before negative numbers. */
  function IntText(n: int): string
  {
    if n < 0 then "-" + Decimal(-n) else Decimal(n)
  }

  /** The value of a string of decimal digits. */
  function DecimalValue(r: string): nat
    requires AllDigits(r)
  {
    if |r| == 0 then 0 else DecimalValue(r[..|r| - 1]) * 10 + (r[|r| - 1] - '0') as nat
  }

  lemma {:induction false} DecimalRoundTrip(n: nat)
    ensures DecimalValue(Decimal(n)) == n
  {
    if n >= 10 {
      var r := Decimal(n);
      assert r[..|r| - 1] == Decimal(n / 10);
      DecimalRoundTrip(n / 10);
    }
  }

  /** The link built for a post forwarded from a chat with a username. */
  function ForwardLink(username: string, messageId: int): (r: string)
    ensures OccursAt(r, 0, "https://t.me/" + username + "/")
  {
    var r := "https://t.me/" + username + "/" + IntText(messageId);
    assert r[0..|"https://t.me/" + username + "/"|] == "https://t.me/" + username + "/";
    r
  }

  /** After the `https://t.me/{username}/` prefix, the forwarded-post link holds the
      message id in decimal: its digits read back as the id, behind a minus sign
      when the id is negative. */
  lemma ForwardLinkId(username: string, messageId: int)
    ensures var k := |"https://t.me/" + username + "/"|;
      var r := ForwardLink(username, messageId);
      && k < |r|
      && (messageId >= 0 ==> AllDigits(r[k..]) && DecimalValue(r[k..]) == messageId)
      && (messageId < 0 ==> r[k] == '-' && AllDigits(r[k + 1..]) && DecimalValue(r[k + 1..]) == -messageId)
  {
    var k := |"https://t.me/" + username + "/"|;
    var t := ForwardLinkTail(username, messageId);
    if messageId >= 0 {
      DecimalRoundTrip(messageId);
    } else {
      IntTextNegative(messageId);
      assert ForwardLink(username, messageId)[k + 1..] == t[1..];
    }
  }

  /** The part of the forwarded-post link after its prefix is the id's text. */
  lemma ForwardLinkTail(username: string, messageId: int) returns (t: string)
    ensures t == IntText(messageId)
    ensures |"https://t.me/" + username + "/"| < |ForwardLink(username, messageId)|
    ensures ForwardLink(username, messageId)[|"https://t.me/" + username + "/"|..] == t
  {
    var prefix := "https://t.me/" + username + "/";
    t := IntText(messageId);
    assert ForwardLink(username, messageId) == prefix + t;
  }

  /** A negative id is written as a minus sign and the digits of its magnitude. */
  lemma IntTextNegative(n: int)
    requires n < 0
    ensures IntText(n)[0] == '-' && IntText(n)[1..] == Decimal(-n)
    ensures AllDigits(IntText(n)[1..]) && DecimalValue(IntText(n)[1..]) == -n
  {
    var m: nat := -n;
    var d := Decimal(m);
    DecimalRoundTrip(m);
    assert DecimalValue(d) == m;
    assert IntText(n)[1..] == d;
  }

  /** A forwarded-post link for a well-formed username and a positive message id
      is itself what the extractor finds in it, whole. */
  lemma ForwardLinkIsCanonical(username: string, messageId: int)
    requires |username| > 0 && AllWord(username) && messageId > 0
    ensures Extract(ForwardLink(username, messageId)) == ForwardLink(username, messageId)
  {
    var p := PostLink(Https, TMe, username, Decimal(messageId), "");
    assert Render(p) == ForwardLink(username, messageId);
    WholeTextIsItsOwnMatch(p);
  }
}
