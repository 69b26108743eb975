/**
 * The GitHub client (src/github.ts): paginated collection over the REST API, following the
 * `rel="next"` target of each page's `Link` header (RFC 8288, section 3), and the issue and
 * issue-event fetchers built on it. The network is an oracle from URL to response.
 */
module GitHub {
  import opened Wrappers
  import opened Seqs
  import opened Text
  import opened Records

  const ApiUrl: string := "https://api.github.com"

  // ---------------------------------------------------------------------------
  // Matching one header segment against  <([^>]+)>;\s*rel="([^"]+)"

  /** A link target with its relation name. */
  datatype Link = Link(url: string, rel: string)

  /** The characters JavaScript's `\s` class matches. */
  predicate IsSpace(c: char)
  {
    || c == ' ' || '\t' <= c <= '\r'
    || c == '\U{00A0}' || c == '\U{1680}' || '\U{2000}' <= c <= '\U{200A}'
    || c == '\U{2028}' || c == '\U{2029}' || c == '\U{202F}' || c == '\U{205F}'
    || c == '\U{3000}' || c == '\U{FEFF}'
  }

  predicate AllSpace(s: string)
  {
    forall i :: 0 <= i < |s| ==> IsSpace(s[i])
  }

  /** The first position at or after `from` holding `c`. */
  function FindFrom(s: string, c: char, from: nat): (r: Option<nat>)
    requires from <= |s|
    ensures r.Some? ==> from <= r.value < |s| && s[r.value] == c
    decreases |s| - from
  {
    if from == |s| then None
    else if s[from] == c then Some(from)
    else FindFrom(s, c, from + 1)
  }

  /** `FindFrom` finds the first `c`: none lies between `from` and what it finds. */
  lemma {:induction false} FindFromFirst(s: string, c: char, from: nat)
    requires from <= |s|
    ensures var r := FindFrom(s, c, from);
      forall k :: from <= k < (if r.Some? then r.value else |s|) ==> s[k] != c
    decreases |s| - from
  {
    if from < |s| && s[from] != c {
      FindFromFirst(s, c, from + 1);
    }
  }

  /** Where a greedy `\s*` starting at `from` stops. */
  function SkipSpace(s: string, from: nat): (r: nat)
    requires from <= |s|
    ensures from <= r <= |s|
    ensures r == |s| || !IsSpace(s[r])
    decreases |s| - from
  {
    if from == |s| || !IsSpace(s[from]) then from else SkipSpace(s, from + 1)
  }

  /** Everything `SkipSpace` skips is white space. */
  lemma {:induction false} SkipSpaceSkipsSpace(s: string, from: nat)
    requires from <= |s|
    ensures AllSpace(s[from..SkipSpace(s, from)])
    decreases |s| - from
  {
    var r := SkipSpace(s, from);
    if from < |s| && IsSpace(s[from]) {
      SkipSpaceSkipsSpace(s, from + 1);
      forall k | 0 <= k < r - from ensures IsSpace(s[from..r][k]) {
        if k > 0 {
          assert s[from..r][k] == s[from + 1..r][k - 1];
        }
      }
    }
  }

  /**
   * The match of the pattern starting exactly at `p`. Neither `[^>]+`, `\s*` nor `[^"]+` can
   * give characters back and still let the match continue, so the match at `p` is unique.
   */
  function MatchAt(s: string, p: nat): (r: Option<Link>)
    ensures r.Some? ==> r.value.url != [] && r.value.rel != []
  {
    if p < |s| && s[p] == '<' then
      match FindFrom(s, '>', p + 1)
      case None => None
      case Some(close) =>
        if close == p + 1 || close + 1 >= |s| || s[close + 1] != ';' then None
        else MatchRel(s, SkipSpace(s, close + 2), s[p + 1..close])
    else None
  }

  /** `s` holds `rel="` from position `r` on, read character by character. */
  predicate RelWordAt(s: string, r: nat)
  {
    r + 5 <= |s| && s[r] == 'r' && s[r + 1] == 'e' && s[r + 2] == 'l' && s[r + 3] == '=' && s[r + 4] == '"'
  }

  lemma RelWordText(s: string, r: nat)
    ensures RelWordAt(s, r) <==> TextAt(s, r, "rel=\"")
  {
    if r + 5 <= |s| {
      if RelWordAt(s, r) {
        assert s[r..r + 5] == "rel=\"";
      }
      if TextAt(s, r, "rel=\"") {
        assert s[r..r + 5][0] == 'r' && s[r..r + 5][1] == 'e' && s[r..r + 5][2] == 'l';
        assert s[r..r + 5][3] == '=' && s[r..r + 5][4] == '"';
      }
    }
  }

  /** The rest of the match once the URL and the `;\s*` are behind: `rel="([^"]+)"` at `r`. */
  function MatchRel(s: string, r: nat, url: string): (m: Option<Link>)
    requires r <= |s|
    ensures m.Some? ==> m.value.url == url && m.value.rel != []
  {
    if RelWordAt(s, r) then
      match FindFrom(s, '"', r + 5)
      case None => None
      case Some(quote) => if quote == r + 5 then None else Some(Link(url, s[r + 5..quote]))
    else None
  }

  /** The text a segment holds when it links `url` with relation `rel`, `gap` after the `;`. */
  function LinkText(url: string, gap: string, rel: string): string
  {
    "<" + (url + TailText(gap, rel))
  }

  /** The part of `LinkText` from the `>` on. */
  function TailText(gap: string, rel: string): string
  {
    ">;" + (gap + RelText(rel))
  }

  /** The part of `LinkText` from `rel=` on. */
  function RelText(rel: string): string
  {
    "rel=\"" + (rel + "\"")
  }

  /** What the two capture groups and the `\s*` may hold. */
  predicate WellFormed(url: string, gap: string, rel: string)
  {
    url != [] && '>' !in url && AllSpace(gap) && rel != [] && '"' !in rel
  }

  /** `s` holds `t` from position `p` on. */
  predicate TextAt(s: string, p: nat, t: string)
  {
    p + |t| <= |s| && s[p..p + |t|] == t
  }

  lemma {:induction false} TextAtConcat(s: string, p: nat, a: string, b: string)
    ensures TextAt(s, p, a + b) <==> TextAt(s, p, a) && TextAt(s, p + |a|, b)
  {
    if TextAt(s, p, a) && TextAt(s, p + |a|, b) {
      assert s[p..p + |a + b|] == s[p..p + |a|] + s[p + |a|..p + |a| + |b|];
    }
    if TextAt(s, p, a + b) {
      assert s[p..p + |a|] == s[p..p + |a + b|][..|a|];
      assert s[p + |a|..p + |a| + |b|] == s[p..p + |a + b|][|a|..];
    }
  }

  lemma {:induction false} TextAtChar(s: string, p: nat, t: string)
    requires TextAt(s, p, t) && t != []
    ensures s[p] == t[0]
  {
    assert s[p] == s[p..p + |t|][0];
  }

  /** Past a stretch without `c`, the next `c` is the first one. */
  lemma {:induction false} FindFromPast(s: string, c: char, from: nat, seg: string)
    requires TextAt(s, from, seg) && c !in seg && from + |seg| < |s| && s[from + |seg|] == c
    ensures FindFrom(s, c, from) == Some(from + |seg|)
    decreases |seg|
  {
    if seg != [] {
      TextAtChar(s, from, seg);
      assert seg == [seg[0]] + seg[1..];
      TextAtConcat(s, from, [seg[0]], seg[1..]);
      FindFromPast(s, c, from + 1, seg[1..]);
    }
  }

  /** Past a stretch of spaces, greedy `\s*` stops at the first non-space. */
  lemma {:induction false} SkipSpacePast(s: string, from: nat, gap: string)
    requires TextAt(s, from, gap) && AllSpace(gap) && from + |gap| < |s| && !IsSpace(s[from + |gap|])
    ensures SkipSpace(s, from) == from + |gap|
    decreases |gap|
  {
    if gap != [] {
      TextAtChar(s, from, gap);
      assert gap == [gap[0]] + gap[1..];
      TextAtConcat(s, from, [gap[0]], gap[1..]);
      SkipSpacePast(s, from + 1, gap[1..]);
    }
  }

  /** The pieces of `LinkText`, each where it lies in the segment. */
  predicate PiecesAt(s: string, p: nat, url: string, gap: string, rel: string)
  {
    var close := p + 1 + |url|;
    var r := close + 2 + |gap|;
    var quote := r + 5 + |rel|;
    && quote < |s|
    && s[p] == '<' && s[p + 1..close] == url
    && s[close] == '>' && s[close + 1] == ';'
    && s[close + 2..r] == gap
    && RelWordAt(s, r)
    && s[r + 5..quote] == rel
    && s[quote] == '"'
  }

  lemma {:induction false} TextAtOne(s: string, i: nat, c: char)
    ensures TextAt(s, i, [c]) <==> i < |s| && s[i] == c
  {
    if i < |s| {
      assert s[i..i + 1] == [s[i]];
    }
  }

  lemma {:induction false} RelTextSplits(s: string, r: nat, rel: string)
    requires TextAt(s, r, RelText(rel))
    ensures r + 5 + |rel| < |s| && RelWordAt(s, r)
    ensures s[r + 5..r + 5 + |rel|] == rel && s[r + 5 + |rel|] == '"'
  {
    TextAtConcat(s, r, "rel=\"", rel + "\"");
    TextAtConcat(s, r + 5, rel, "\"");
    TextAtOne(s, r + 5 + |rel|, '"');
    RelWordText(s, r);
  }

  lemma {:induction false} RelTextJoins(s: string, r: nat, rel: string)
    requires r + 5 + |rel| < |s| && RelWordAt(s, r)
    requires s[r + 5..r + 5 + |rel|] == rel && s[r + 5 + |rel|] == '"'
    ensures TextAt(s, r, RelText(rel))
  {
    RelWordText(s, r);
    TextAtOne(s, r + 5 + |rel|, '"');
    TextAtConcat(s, r + 5, rel, "\"");
    TextAtConcat(s, r, "rel=\"", rel + "\"");
  }

  lemma {:induction false} TailTextSplits(s: string, c: nat, gap: string, rel: string)
    requires TextAt(s, c, TailText(gap, rel))
    ensures c + 2 + |gap| <= |s| && s[c] == '>' && s[c + 1] == ';'
    ensures s[c + 2..c + 2 + |gap|] == gap && TextAt(s, c + 2 + |gap|, RelText(rel))
  {
    TextAtConcat(s, c, ">;", gap + RelText(rel));
    TextAtConcat(s, c + 2, gap, RelText(rel));
    assert ">;" == ">" + ";";
    TextAtConcat(s, c, ">", ";");
    TextAtOne(s, c, '>');
    TextAtOne(s, c + 1, ';');
  }

  lemma {:induction false} TailTextJoins(s: string, c: nat, gap: string, rel: string)
    requires c + 2 + |gap| <= |s| && s[c] == '>' && s[c + 1] == ';'
    requires s[c + 2..c + 2 + |gap|] == gap && TextAt(s, c + 2 + |gap|, RelText(rel))
    ensures TextAt(s, c, TailText(gap, rel))
  {
    TextAtOne(s, c, '>');
    TextAtOne(s, c + 1, ';');
    TextAtConcat(s, c, ">", ";");
    assert ">;" == ">" + ";";
    TextAtConcat(s, c + 2, gap, RelText(rel));
    TextAtConcat(s, c, ">;", gap + RelText(rel));
  }

  lemma {:induction false} LinkTextSplits(s: string, p: nat, url: string, gap: string, rel: string)
    requires TextAt(s, p, LinkText(url, gap, rel))
    ensures PiecesAt(s, p, url, gap, rel)
  {
    var close := p + 1 + |url|;
    assert s[p] == '<' && s[p + 1..close] == url && TextAt(s, close, TailText(gap, rel)) by {
      TextAtConcat(s, p, "<", url + TailText(gap, rel));
      TextAtConcat(s, p + 1, url, TailText(gap, rel));
      TextAtOne(s, p, '<');
    }
    TailTextSplits(s, close, gap, rel);
    RelTextSplits(s, close + 2 + |gap|, rel);
  }

  lemma {:induction false} LinkTextJoins(s: string, p: nat, url: string, gap: string, rel: string)
    requires PiecesAt(s, p, url, gap, rel)
    ensures TextAt(s, p, LinkText(url, gap, rel))
  {
    var close := p + 1 + |url|;
    RelTextJoins(s, close + 2 + |gap|, rel);
    TailTextJoins(s, close, gap, rel);
    TextAtOne(s, p, '<');
    TextAtConcat(s, p + 1, url, TailText(gap, rel));
    TextAtConcat(s, p, "<", url + TailText(gap, rel));
  }

  /** Reading a segment that holds the pattern at `p` gives back its two groups. */
  lemma {:induction false} MatchAtText(s: string, p: nat, url: string, gap: string, rel: string)
    requires WellFormed(url, gap, rel) && TextAt(s, p, LinkText(url, gap, rel))
    ensures MatchAt(s, p) == Some(Link(url, rel))
  {
    LinkTextSplits(s, p, url, gap, rel);
    MatchAtPieces(s, p, url, gap, rel);
  }

  lemma {:induction false} MatchAtPieces(s: string, p: nat, url: string, gap: string, rel: string)
    requires WellFormed(url, gap, rel) && PiecesAt(s, p, url, gap, rel)
    ensures MatchAt(s, p) == Some(Link(url, rel))
  {
    var close := p + 1 + |url|;
    var r := close + 2 + |gap|;
    var quote := r + 5 + |rel|;
    assert FindFrom(s, '"', r + 5) == Some(quote) by {
      FindFromPast(s, '"', r + 5, rel);
    }
    MatchRelUnfold(s, r, url, quote);
    assert SkipSpace(s, close + 2) == r by {
      assert s[r] == 'r';
      SkipSpacePast(s, close + 2, gap);
    }
    assert FindFrom(s, '>', p + 1) == Some(close) by {
      FindFromPast(s, '>', p + 1, url);
    }
    MatchAtUnfold(s, p, close, r, url, Link(url, rel));
  }

  /** `MatchRel` once the closing quote is found. */
  lemma {:induction false} MatchRelUnfold(s: string, r: nat, url: string, quote: nat)
    requires RelWordAt(s, r) && FindFrom(s, '"', r + 5) == Some(quote) && quote != r + 5
    ensures MatchRel(s, r, url) == Some(Link(url, s[r + 5..quote]))
  {
  }

  /** `MatchAt` once the closing `>;` is found. */
  lemma {:induction false} MatchAtUnfold(s: string, p: nat, close: nat, r: nat, url: string, link: Link)
    requires p < |s| && s[p] == '<' && FindFrom(s, '>', p + 1) == Some(close)
    requires close != p + 1 && close + 1 < |s| && s[close + 1] == ';'
    requires SkipSpace(s, close + 2) == r && s[p + 1..close] == url && MatchRel(s, r, url) == Some(link)
    ensures MatchAt(s, p) == Some(link)
  {
  }

  /** What a match at `p` found: the `<`, the closing `>;` and the relation part after it. */
  lemma {:induction false} MatchAtParts(s: string, p: nat)
    requires MatchAt(s, p).Some?
    ensures p < |s| && s[p] == '<' && FindFrom(s, '>', p + 1).Some?
    ensures var close := FindFrom(s, '>', p + 1).value;
      && close != p + 1 && close + 1 < |s| && s[close + 1] == ';'
      && MatchAt(s, p) == MatchRel(s, SkipSpace(s, close + 2), s[p + 1..close])
  {
  }

  /** What a relation match at `r` found: `rel="` and the closing quote. */
  lemma {:induction false} MatchRelParts(s: string, r: nat, url: string)
    requires r <= |s| && MatchRel(s, r, url).Some?
    ensures RelWordAt(s, r) && FindFrom(s, '"', r + 5).Some?
    ensures var quote := FindFrom(s, '"', r + 5).value;
      quote != r + 5 && MatchRel(s, r, url) == Some(Link(url, s[r + 5..quote]))
  {
  }

  /** A match at `p` means the segment holds the pattern there, with those two groups. */
  lemma {:induction false} MatchAtMeans(s: string, p: nat, url: string, rel: string)
    requires MatchAt(s, p) == Some(Link(url, rel))
    ensures exists gap :: WellFormed(url, gap, rel) && TextAt(s, p, LinkText(url, gap, rel))
  {
    MatchAtParts(s, p);
    var close := FindFrom(s, '>', p + 1).value;
    var r := SkipSpace(s, close + 2);
    MatchRelParts(s, r, s[p + 1..close]);
    var quote := FindFrom(s, '"', r + 5).value;
    assert url == s[p + 1..close] && rel == s[r + 5..quote];
    ScannedText(s, p, close, r, quote);
  }

  /**
   * The regular expression's meaning: it matches at `p` with groups `url` and `rel` exactly
   * when the segment holds `<url>;`, spaces, `rel="rel"` there, with no `>` in `url` and no
   * `"` in `rel`, both non-empty.
   */
  lemma {:induction false} MatchAtIff(s: string, p: nat, url: string, rel: string)
    ensures MatchAt(s, p) == Some(Link(url, rel)) <==>
      exists gap :: WellFormed(url, gap, rel) && TextAt(s, p, LinkText(url, gap, rel))
  {
    if MatchAt(s, p) == Some(Link(url, rel)) {
      MatchAtMeans(s, p, url, rel);
    }
    if exists gap :: WellFormed(url, gap, rel) && TextAt(s, p, LinkText(url, gap, rel)) {
      var gap :| WellFormed(url, gap, rel) && TextAt(s, p, LinkText(url, gap, rel));
      MatchAtText(s, p, url, gap, rel);
    }
  }

  /** The positions the matcher stops at delimit a well-formed link text. */
  lemma {:induction false} ScannedText(s: string, p: nat, close: nat, r: nat, quote: nat)
    requires p < |s| && s[p] == '<' && FindFrom(s, '>', p + 1) == Some(close)
    requires close != p + 1 && close + 1 < |s| && s[close + 1] == ';'
    requires SkipSpace(s, close + 2) == r && RelWordAt(s, r)
    requires FindFrom(s, '"', r + 5) == Some(quote) && quote != r + 5
    ensures var url, gap, rel := s[p + 1..close], s[close + 2..r], s[r + 5..quote];
      WellFormed(url, gap, rel) && TextAt(s, p, LinkText(url, gap, rel))
  {
    var url, gap, rel := s[p + 1..close], s[close + 2..r], s[r + 5..quote];
    FindFromFirst(s, '>', p + 1);
    FindFromFirst(s, '"', r + 5);
    SkipSpaceSkipsSpace(s, close + 2);
    assert '>' !in url by {
      forall k | 0 <= k < |url| ensures url[k] != '>' {
        assert url[k] == s[p + 1 + k];
      }
    }
    assert '"' !in rel by {
      forall k | 0 <= k < |rel| ensures rel[k] != '"' {
        assert rel[k] == s[r + 5 + k];
      }
    }
    assert PiecesAt(s, p, url, gap, rel);
    LinkTextJoins(s, p, url, gap, rel);
  }

  /** The first position from `from` up to `end` where `f` finds something, and what it finds. */
  function FirstFound<T>(f: nat -> Option<T>, from: nat, end: nat): Option<T>
    decreases end - from
  {
    if from >= end then None
    else if f(from).Some? then f(from)
    else FirstFound(f, from + 1, end)
  }

  /** What is found is found at the leftmost position where `f` finds anything. */
  lemma {:induction false} FirstFoundLeftmost<T>(f: nat -> Option<T>, from: nat, end: nat)
    ensures FirstFound(f, from, end).Some? ==> exists p :: (from <= p < end && f(p) == FirstFound(f, from, end)
      && forall k :: from <= k < p ==> f(k).None?)
    ensures FirstFound(f, from, end).None? ==> forall k :: from <= k < end ==> f(k).None?
    decreases end - from
  {
    if from < end && f(from).None? {
      FirstFoundLeftmost(f, from + 1, end);
      if FirstFound(f, from + 1, end).Some? {
        var p :| from + 1 <= p < end && f(p) == FirstFound(f, from + 1, end)
          && forall k :: from + 1 <= k < p ==> f(k).None?;
        assert from <= p < end && f(p) == FirstFound(f, from, end) && forall k :: from <= k < p ==> f(k).None?;
      }
    }
  }

  /** Whatever `f` finds at a position where it finds something and nothing before is what is found. */
  lemma {:induction false} FirstFoundAt<T>(f: nat -> Option<T>, from: nat, end: nat, p: nat)
    requires from <= p < end && f(p).Some? && forall k: nat :: from <= k < p ==> f(k).None?
    ensures FirstFound(f, from, end) == f(p)
    decreases p - from
  {
    if from < p {
      FirstFoundAt(f, from + 1, end, p);
    }
  }

  /** The match attempt at every position of `s`. */
  function MatchesAt(s: string): nat -> Option<Link>
  {
    (p: nat) => MatchAt(s, p)
  }

  /** `part.match(...)` from position `from` on: the match at the leftmost position where the pattern matches. */
  function MatchFrom(s: string, from: nat): (r: Option<Link>)
    ensures r.Some? ==> r.value.url != [] && r.value.rel != []
  {
    FirstFoundLeftmost(MatchesAt(s), from, |s|);
    FirstFound(MatchesAt(s), from, |s|)
  }

  /** The match found is the one at the leftmost position where the pattern matches. */
  lemma {:induction false} MatchFromLeftmost(s: string, from: nat)
    ensures MatchFrom(s, from).Some? ==> exists p :: (from <= p < |s| && MatchAt(s, p) == MatchFrom(s, from)
      && forall k :: from <= k < p ==> MatchAt(s, k).None?)
    ensures MatchFrom(s, from).None? ==> forall k :: from <= k < |s| ==> MatchAt(s, k).None?
  {
    var f := MatchesAt(s);
    FirstFoundLeftmost(f, from, |s|);
    assert forall k: nat :: f(k) == MatchAt(s, k);
    if MatchFrom(s, from).Some? {
      var p :| from <= p < |s| && f(p) == FirstFound(f, from, |s|) && forall k :: from <= k < p ==> f(k).None?;
      assert MatchAt(s, p) == MatchFrom(s, from);
    }
  }

  function MatchLink(part: string): Option<Link>
  {
    MatchFrom(part, 0)
  }

  // ---------------------------------------------------------------------------
  // The reduce over the comma-separated segments

  /** The match of every segment, in order. */
  function Matches(parts: seq<string>): (ms: seq<Option<Link>>)
    ensures |ms| == |parts| && forall i :: 0 <= i < |parts| ==> ms[i] == MatchLink(parts[i])
  {
    seq(|parts|, i requires 0 <= i < |parts| => MatchLink(parts[i]))
  }

  /** The record the `reduce` builds from the segments' matches: each match sets its relation, in order. */
  function Record(ms: seq<Option<Link>>): (r: map<string, string>)
    requires forall i :: 0 <= i < |ms| && ms[i].Some? ==> ms[i].value.url != []
    ensures forall rel :: rel in r ==> r[rel] != []
  {
    if ms == [] then map[]
    else
      var acc := Record(ms[..|ms| - 1]);
      match ms[|ms| - 1]
      case None => acc
      case Some(link) => acc[link.rel := link.url]
  }

  function Relations(parts: seq<string>): (r: map<string, string>)
    ensures forall rel :: rel in r ==> r[rel] != []
  {
    Record(Matches(parts))
  }

  /** Whether a segment's match names relation `rel`. */
  predicate Names(m: Option<Link>, rel: string)
  {
    m.Some? && m.value.rel == rel
  }

  /** `i` is the last segment whose match names `rel`. */
  predicate LastNaming(ms: seq<Option<Link>>, i: int, rel: string)
  {
    0 <= i < |ms| && Names(ms[i], rel) && forall k :: i < k < |ms| ==> !Names(ms[k], rel)
  }

  /** A relation is recorded exactly when some match names it. */
  lemma {:induction false} RecordDomain(ms: seq<Option<Link>>, rel: string)
    requires forall i :: 0 <= i < |ms| && ms[i].Some? ==> ms[i].value.url != []
    ensures rel in Record(ms) <==> exists i :: 0 <= i < |ms| && Names(ms[i], rel)
  {
    if ms != [] {
      var init := ms[..|ms| - 1];
      RecordDomain(init, rel);
      if exists i :: 0 <= i < |init| && Names(init[i], rel) {
        var i :| 0 <= i < |init| && Names(init[i], rel);
        assert ms[i] == init[i];
      }
      if exists i :: 0 <= i < |ms| && Names(ms[i], rel) {
        var i :| 0 <= i < |ms| && Names(ms[i], rel);
        if i < |init| {
          assert init[i] == ms[i];
        }
      }
    }
  }

  /** The recorded URL comes from the last match naming the relation. */
  lemma {:induction false} RecordTakesLast(ms: seq<Option<Link>>, rel: string)
    requires forall i :: 0 <= i < |ms| && ms[i].Some? ==> ms[i].value.url != []
    requires rel in Record(ms)
    ensures exists i :: LastNaming(ms, i, rel) && ms[i].value.url == Record(ms)[rel]
  {
    var init, last := ms[..|ms| - 1], ms[|ms| - 1];
    if Names(last, rel) {
      assert LastNaming(ms, |ms| - 1, rel);
    } else {
      assert rel in Record(init);
      RecordTakesLast(init, rel);
      var i :| LastNaming(init, i, rel) && init[i].value.url == Record(init)[rel];
      assert ms[i] == init[i];
      forall k | i < k < |ms| ensures !Names(ms[k], rel) {
        if k < |init| {
          assert init[k] == ms[k];
        }
      }
      assert LastNaming(ms, i, rel);
    }
  }

  /**
   * A relation maps to a URL exactly when some segment links that URL under that relation
   * and no later segment names the relation again: segments that do not match are ignored
   * and the later of two segments with the same relation wins.
   */
  lemma {:induction false} LaterSegmentWins(parts: seq<string>, rel: string, url: string)
    ensures (rel in Relations(parts) && Relations(parts)[rel] == url) <==>
      exists i :: LastNaming(Matches(parts), i, rel) && MatchLink(parts[i]) == Some(Link(url, rel))
  {
    var ms := Matches(parts);
    RecordDomain(ms, rel);
    if rel in Relations(parts) {
      RecordTakesLast(ms, rel);
      var j :| LastNaming(ms, j, rel) && ms[j].value.url == Record(ms)[rel];
      assert ms[j] == Some(Link(Record(ms)[rel], rel));
      assert forall i :: LastNaming(ms, i, rel) ==> i == j;
    }
  }

  /** One more match folded into the record. */
  lemma {:induction false} RecordSnoc(ms: seq<Option<Link>>, i: nat)
    requires i < |ms| && forall k :: 0 <= k < |ms| && ms[k].Some? ==> ms[k].value.url != []
    ensures Record(ms[..i + 1]) ==
      if ms[i].Some? then Record(ms[..i])[ms[i].value.rel := ms[i].value.url] else Record(ms[..i])
  {
    assert ms[..i + 1][..i] == ms[..i];
  }

  /** The reduce, as the loop it is: one segment at a time into the accumulator. */
  method ParseLinkHeader(header: string) returns (links: map<string, string>)
    ensures links == Relations(Split(header, ','))
  {
    var parts := Split(header, ',');
    ghost var ms := Matches(parts);
    links := map[];
    for i := 0 to |parts|
      invariant links == Record(ms[..i])
    {
      RecordSnoc(ms, i);
      var m := MatchLink(parts[i]);
      if m.Some? {
        links := links[m.value.rel := m.value.url];
      }
    }
    assert ms[..|parts|] == ms;
  }

  /**
   * The next page to request after a response with this `Link` header, if any. An empty
   * target cannot occur: `[^>]+` matches at least one character.
   */
  function NextTarget(linkHeader: Option<string>): (r: Option<string>)
    ensures r.Some? ==> r.value != ""
  {
    if linkHeader.None? || linkHeader.value == "" then None
    else
      var links := Relations(Split(linkHeader.value, ','));
      if "next" in links then Some(links["next"]) else None
  }

  // ---------------------------------------------------------------------------
  // A header as GitHub writes it reads back to the links it lists

  /** `<url>; rel="rel"`, the segment of one link. */
  function Segment(link: Link): string
  {
    LinkText(link.url, " ", link.rel)
  }

  /** The links joined with ", ", as GitHub sends them. */
  function FormatHeader(links: seq<Link>): string
  {
    Join(seq(|links|, i requires 0 <= i < |links| => (if i == 0 then "" else " ") + Segment(links[i])), ',')
  }

  /** A link the header format can carry: no `>` or `,` in its URL, no `"` or `,` in its name. */
  predicate Formattable(link: Link)
  {
    link.url != [] && '>' !in link.url && ',' !in link.url
    && link.rel != [] && '"' !in link.rel && ',' !in link.rel
  }

  /** No comma is written into a link text whose pieces hold none. */
  lemma {:induction false} LinkTextNoComma(url: string, gap: string, rel: string)
    requires ',' !in url && ',' !in gap && ',' !in rel
    ensures ',' !in LinkText(url, gap, rel)
  {
    assert ',' !in RelText(rel);
    assert ',' !in TailText(gap, rel);
  }

  /** The pattern matches a segment where its link text begins. */
  lemma {:induction false} SegmentMatchesAt(link: Link, lead: string)
    requires Formattable(link)
    ensures MatchAt(lead + Segment(link), |lead|) == Some(link)
  {
    var s := lead + Segment(link);
    assert WellFormed(link.url, " ", link.rel) by {
      assert IsSpace(' ');
    }
    assert TextAt(s, |lead|, Segment(link)) by {
      assert s[|lead|..|lead| + |Segment(link)|] == Segment(link);
    }
    MatchAtText(s, |lead|, link.url, " ", link.rel);
  }

  /** A segment as the header writes it matches its link, and holds no comma. */
  lemma {:induction false} SegmentMatches(link: Link, lead: string)
    requires Formattable(link) && (lead == "" || lead == " ")
    ensures MatchLink(lead + Segment(link)) == Some(link)
    ensures ',' !in lead + Segment(link)
  {
    var s := lead + Segment(link);
    var f := MatchesAt(s);
    assert f(|lead|) == Some(link) by {
      SegmentMatchesAt(link, lead);
    }
    assert forall k: nat :: k < |lead| ==> f(k).None? by {
      if lead == " " {
        assert s[0] == ' ';
        assert MatchAt(s, 0).None?;
      }
    }
    FirstFoundAt(f, 0, |s|, |lead|);
    LinkTextNoComma(link.url, " ", link.rel);
  }

  /** Splitting a formatted header on commas and matching each segment gives back its links. */
  lemma {:induction false} FormatHeaderRoundTrip(links: seq<Link>)
    requires links != []
    requires forall i :: 0 <= i < |links| ==> Formattable(links[i])
    ensures Matches(Split(FormatHeader(links), ',')) == seq(|links|, i requires 0 <= i < |links| => Some(links[i]))
  {
    var parts := seq(|links|, i requires 0 <= i < |links| => (if i == 0 then "" else " ") + Segment(links[i]));
    forall i | 0 <= i < |links| ensures ',' !in parts[i] && MatchLink(parts[i]) == Some(links[i]) {
      SegmentMatches(links[i], if i == 0 then "" else " ");
    }
    SplitJoin(parts, ',');
  }

  /**
   * The next page named by a formatted header is the URL of its last `next` link, and there is
   * none when no link is called `next`.
   */
  lemma {:induction false} NextOfFormattedHeader(links: seq<Link>, url: string)
    requires links != []
    requires forall i :: 0 <= i < |links| ==> Formattable(links[i])
    ensures NextTarget(Some(FormatHeader(links))) == Some(url) <==>
      exists i :: 0 <= i < |links| && links[i] == Link(url, "next")
        && forall k :: i < k < |links| ==> links[k].rel != "next"
  {
    var header := FormatHeader(links);
    var parts := Split(header, ',');
    var ms := Matches(parts);
    assert |ms| == |links| && forall i :: 0 <= i < |links| ==> ms[i] == Some(links[i]) by {
      FormatHeaderRoundTrip(links);
    }
    assert header != "" by {
      assert MatchLink(parts[0]).Some?;
    }
    assert NextTarget(Some(header)) == if "next" in Record(ms) then Some(Record(ms)["next"]) else None;
    RecordOfLinks(ms, links, "next", url);
  }

  /** Over matches that all succeed, a relation maps to the URL of the last link with that name. */
  lemma {:induction false} RecordOfLinks(ms: seq<Option<Link>>, links: seq<Link>, rel: string, url: string)
    requires |ms| == |links| && forall i :: 0 <= i < |links| ==> ms[i] == Some(links[i])
    requires forall i :: 0 <= i < |links| ==> links[i].url != []
    ensures (rel in Record(ms) && Record(ms)[rel] == url) <==>
      exists i :: 0 <= i < |links| && links[i] == Link(url, rel)
        && forall k :: i < k < |links| ==> links[k].rel != rel
  {
    RecordDomain(ms, rel);
    if rel in Record(ms) {
      RecordTakesLast(ms, rel);
      var j :| LastNaming(ms, j, rel) && ms[j].value.url == Record(ms)[rel];
      assert forall i :: LastNaming(ms, i, rel) ==> i == j;
    }
  }

  // ---------------------------------------------------------------------------
  // Responses, errors and the page chain

  /** A parsed response body: a JSON array, or any single value. */
  datatype Body<T> = Many(items: seq<T>) | One(item: T)

  /** What a request returns: an OK response with its `Link` header, or a failure status. */
  datatype Response<T> = Ok(body: Body<T>, linkHeader: Option<string>) | NotOk(status: int, message: string)

  /** Why a collection fails. */
  datatype Error = NotAuthenticated | ApiError(status: int, message: string)

  const ApiErrorPrefix: string := "GitHub API error: "

  /** The text of the thrown `Error`. */
  function ErrorMessage(e: Error): string
  {
    match e
    case NotAuthenticated => "Not authenticated. Please log in again."
    case ApiError(status, message) => ApiErrorPrefix + DecimalString(status) + " " + message
  }

  /** The status number can be read back from an API error's text: it is the first word after the prefix. */
  lemma {:induction false} ErrorCarriesStatus(status: int, message: string)
    ensures var text := ErrorMessage(ApiError(status, message));
      && |ApiErrorPrefix| <= |text| && text[..|ApiErrorPrefix|] == ApiErrorPrefix
      && ParseDecimal(Split(text[|ApiErrorPrefix|..], ' ')[0]) == Some(status)
  {
    var text := ErrorMessage(ApiError(status, message));
    var digits := DecimalString(status);
    assert text[|ApiErrorPrefix|..] == digits + (" " + message);
    DecimalHasNoSpace(status);
    SplitPrefix(digits, " " + message, ' ');
    SplitAtSeparator(message, ' ');
    assert digits + "" == digits;
    DecimalRoundTrip(status);
  }

  lemma {:induction false} DecimalHasNoSpace(n: int)
    ensures ' ' !in DecimalString(n)
  {
    var d := NatDigits(if n < 0 then -n else n);
    assert IsDigits(d);
    assert ' ' !in d by {
      forall i | 0 <= i < |d| ensures d[i] != ' ' {
        assert '0' <= d[i] <= '9';
      }
    }
  }

  lemma {:induction false} SplitAtSeparator(t: string, sep: char)
    ensures Split([sep] + t, sep)[0] == ""
  {
    SplitPrefix([], [sep] + t, sep);
    var w := [sep] + t;
    assert Split([sep] + t, sep) == [[] + Split(w, sep)[0]] + Split(w, sep)[1..];
  }

  /** The records a page adds: all elements of an array, or the single value. */
  function Contribution<T>(body: Body<T>): seq<T>
  {
    match body
    case Many(items) => items
    case One(item) => [item]
  }

  /** What the loop takes from one response: its records and next page, or its failure. */
  datatype Page<T> = Page(items: seq<T>, next: Option<string>) | Failed(status: int, message: string)

  function Digest<T>(response: Response<T>): (page: Page<T>)
    ensures page.Failed? <==> response.NotOk?
    ensures page.Page? ==> page.items == Contribution(response.body) && page.next == NextTarget(response.linkHeader)
  {
    match response
    case NotOk(status, message) => Failed(status, message)
    case Ok(body, linkHeader) => Page(Contribution(body), NextTarget(linkHeader))
  }

  /** The page behind every URL. */
  function Pages<T>(fetch: string -> Response<T>): string -> Page<T>
  {
    url => Digest(fetch(url))
  }

  /** The outcome of a collection: its result and every URL requested, in order. */
  datatype Outcome<T> = Outcome(result: Result<seq<T>, Error>, requested: seq<string>)

  /**
   * Following the chain from `url` for at most `fuel` requests; `None` when the chain is
   * longer than that.
   */
  function Crawl<T>(pages: string -> Page<T>, url: string, fuel: nat): Option<Outcome<T>>
    decreases fuel
  {
    if fuel == 0 then None
    else
      match pages(url)
      case Failed(status, message) => Some(Outcome(Failure(ApiError(status, message)), [url]))
      case Page(items, None) => Some(Outcome(Success(items), [url]))
      case Page(items, Some(next)) =>
        match Crawl(pages, next, fuel - 1)
        case None => None
        case Some(rest) => Some(Prepend(items, [url], rest))
  }

  /** Puts what was collected and requested before in front of the rest of a collection. */
  function Prepend<T>(items: seq<T>, requested: seq<string>, rest: Outcome<T>): (o: Outcome<T>)
    ensures o.requested == requested + rest.requested
    ensures o.result.Success? <==> rest.result.Success?
    ensures o.result.Success? ==> o.result.value == items + rest.result.value
    ensures o.result.Failure? ==> o.result == rest.result
  {
    Outcome(if rest.result.Success? then Success(items + rest.result.value) else rest.result,
      requested + rest.requested)
  }

  /** Prepending nothing changes nothing. */
  lemma {:induction false} PrependNothing<T>(o: Outcome<T>)
    ensures Prepend([], [], o) == o
  {
    assert [] + o.requested == o.requested;
    if o.result.Success? {
      assert [] + o.result.value == o.result.value;
    }
  }

  /** Prepending twice is prepending both at once. */
  lemma {:induction false} PrependTwice<T>(items: seq<T>, requested: seq<string>, more: seq<T>, url: string, rest: Outcome<T>)
    ensures Prepend(items, requested, Prepend(more, [url], rest))
      == Prepend(items + more, requested + [url], rest)
  {
    assert requested + ([url] + rest.requested) == (requested + [url]) + rest.requested;
    if rest.result.Success? {
      assert items + (more + rest.result.value) == (items + more) + rest.result.value;
    }
  }

  /** More fuel changes nothing once the chain has ended. */
  lemma {:induction false} CrawlFuel<T>(pages: string -> Page<T>, url: string, n: nat, m: nat)
    requires Crawl(pages, url, n).Some? && n <= m
    ensures Crawl(pages, url, m) == Crawl(pages, url, n)
    decreases n
  {
    if pages(url).Page? && pages(url).next.Some? {
      CrawlFuel(pages, pages(url).next.value, n - 1, m - 1);
    }
  }

  /** Any two fuels that reach the end of the chain agree. */
  lemma {:induction false} CrawlDeterminate<T>(pages: string -> Page<T>, url: string, n: nat, m: nat)
    requires Crawl(pages, url, n).Some? && Crawl(pages, url, m).Some?
    ensures Crawl(pages, url, n) == Crawl(pages, url, m)
  {
    if n <= m {
      CrawlFuel(pages, url, n, m);
    } else {
      CrawlFuel(pages, url, m, n);
    }
  }

  /** The chain from `url` ends within some number of requests. */
  ghost predicate ChainEnds<T>(pages: string -> Page<T>, url: string)
  {
    exists n: nat :: Crawl(pages, url, n).Some?
  }

  /**
   * `reqs` is the chain of requests from `url`: each request but the last got a page that
   * names the next one, and the last one failed or named no next page.
   */
  ghost predicate IsChain<T>(pages: string -> Page<T>, url: string, reqs: seq<string>)
  {
    && reqs != [] && reqs[0] == url
    && (forall i :: 0 <= i < |reqs| - 1 ==> pages(reqs[i]).Page? && pages(reqs[i]).next == Some(reqs[i + 1]))
    && (pages(reqs[|reqs| - 1]).Failed? || pages(reqs[|reqs| - 1]).next.None?)
  }

  /** The records of the pages among `reqs`, page after page. */
  function Collected<T>(pages: string -> Page<T>, reqs: seq<string>): seq<T>
  {
    if reqs == [] then []
    else (if pages(reqs[0]).Page? then pages(reqs[0]).items else []) + Collected(pages, reqs[1..])
  }

  /** The result of a chain: the last page's failure, or every page's records in order. */
  function ChainResult<T>(pages: string -> Page<T>, reqs: seq<string>): Result<seq<T>, Error>
    requires reqs != []
  {
    var last := pages(reqs[|reqs| - 1]);
    if last.Failed? then Failure(ApiError(last.status, last.message)) else Success(Collected(pages, reqs))
  }

  /** A page that names the next one extends the chain from there by one request. */
  lemma {:induction false} ChainCons<T>(pages: string -> Page<T>, url: string, rest: seq<string>)
    requires pages(url).Page? && pages(url).next.Some? && IsChain(pages, pages(url).next.value, rest)
    ensures IsChain(pages, url, [url] + rest)
    ensures ChainResult(pages, [url] + rest)
      == Prepend(pages(url).items, [url], Outcome(ChainResult(pages, rest), rest)).result
  {
    var reqs := [url] + rest;
    assert reqs[1..] == rest;
    forall i | 0 <= i < |reqs| - 1
      ensures pages(reqs[i]).Page? && pages(reqs[i]).next == Some(reqs[i + 1])
    {
      if i > 0 {
        assert reqs[i] == rest[i - 1] && reqs[i + 1] == rest[i];
      }
    }
    assert reqs[|reqs| - 1] == rest[|rest| - 1];
    assert Collected(pages, reqs) == pages(url).items + Collected(pages, rest);
  }

  /** A finished collection followed the chain of next links, and its result is the chain's. */
  lemma {:induction false} CrawlFollowsChain<T>(pages: string -> Page<T>, url: string, n: nat)
    requires Crawl(pages, url, n).Some?
    ensures var o := Crawl(pages, url, n).value;
      IsChain(pages, url, o.requested) && o.result == ChainResult(pages, o.requested)
    decreases n
  {
    var page := pages(url);
    if page.Page? && page.next.Some? {
      var next := page.next.value;
      CrawlFollowsChain(pages, next, n - 1);
      var rest := Crawl(pages, next, n - 1).value;
      ChainCons(pages, url, rest.requested);
      assert Crawl(pages, url, n).value == Prepend(page.items, [url], rest);
    } else if page.Page? {
      assert Crawl(pages, url, n).value == Outcome(Success(page.items), [url]);
      assert Collected(pages, [url]) == page.items + Collected(pages, []) == page.items;
    }
  }

  /** Conversely, a chain of requests is what the collection follows. */
  lemma {:induction false} ChainIsCrawled<T>(pages: string -> Page<T>, url: string, reqs: seq<string>)
    requires IsChain(pages, url, reqs)
    ensures Crawl(pages, url, |reqs|) == Some(Outcome(ChainResult(pages, reqs), reqs))
    decreases |reqs|
  {
    if |reqs| > 1 {
      var rest := reqs[1..];
      assert IsChain(pages, reqs[1], rest) by {
        forall i | 0 <= i < |rest| - 1
          ensures pages(rest[i]).Page? && pages(rest[i]).next == Some(rest[i + 1])
        {
          assert rest[i] == reqs[i + 1] && rest[i + 1] == reqs[i + 2];
        }
      }
      ChainIsCrawled(pages, reqs[1], rest);
      assert reqs == [url] + rest;
      assert pages(url).Page? && pages(url).next == Some(reqs[1]);
      assert rest[|rest| - 1] == reqs[|reqs| - 1];
      assert Collected(pages, reqs) == pages(url).items + Collected(pages, rest);
    } else {
      assert |reqs| == 1 && reqs == [url] && reqs[1..] == [];
      if pages(url).Page? {
        assert Collected(pages, reqs) == pages(url).items + Collected(pages, []) == pages(url).items;
      }
    }
  }

  // ---------------------------------------------------------------------------
  // fetchPaginatedGitHubAPI

  /** `if (!token)`: both a missing and an empty token count as not logged in. */
  predicate HasToken(token: Option<string>)
  {
    token.Some? && token.value != ""
  }

  /** The link step of the loop: the `next` URL of a response's `Link` header, if any. */
  method NextLink(linkHeader: Option<string>) returns (next: Option<string>)
    ensures next == NextTarget(linkHeader)
  {
    next := None;
    if linkHeader.Some? && linkHeader.value != "" {
      var links := ParseLinkHeader(linkHeader.value);
      if "next" in links {
        next := Some(links["next"]);
      }
    }
  }

  /**
   * The collection loop. With no token nothing is requested. Otherwise the pages are
   * requested one by one from `ApiUrl + path`, following each response's `next` link; the
   * first failed response ends the collection with its status and message and discards what
   * was collected, and the last page's missing `next` link ends it with everything collected.
   */
  method FetchPaginated<T>(path: string, token: Option<string>, fetch: string -> Response<T>)
    returns (r: Result<seq<T>, Error>, requested: seq<string>)
    requires HasToken(token) ==> ChainEnds(Pages(fetch), ApiUrl + path)
    ensures !HasToken(token) ==> r == Failure(NotAuthenticated) && requested == []
    ensures HasToken(token) ==> forall n: nat :: Crawl(Pages(fetch), ApiUrl + path, n).Some? ==>
      Crawl(Pages(fetch), ApiUrl + path, n).value == Outcome(r, requested)
  {
    requested := [];
    if !HasToken(token) {
      return Failure(NotAuthenticated), requested;
    }
    ghost var pages := Pages(fetch);
    var start := ApiUrl + path;
    ghost var n: nat :| Crawl(pages, start, n).Some?;
    ghost var whole := Crawl(pages, start, n).value;
    ghost var fuel: nat := n;
    var results: seq<T> := [];
    var nextUrl: Option<string> := Some(start);
    PrependNothing(whole);
    while nextUrl.Some?
      invariant nextUrl.Some? ==>
        (Crawl(pages, nextUrl.value, fuel).Some?
         && whole == Prepend(results, requested, Crawl(pages, nextUrl.value, fuel).value))
      invariant nextUrl.None? ==> whole == Outcome(Success(results), requested)
      decreases fuel
    {
      var url := nextUrl.value;
      var response := fetch(url);
      assert pages(url) == Digest(response);
      if response.NotOk? {
        CrawlStepFails(pages, url, fuel, whole, results, requested);
        requested := requested + [url];
        r := Failure(ApiError(response.status, response.message));
        CrawlUnique(pages, start, n);
        return;
      }
      nextUrl := NextLink(response.linkHeader);
      CrawlStepGoesOn(pages, url, fuel, whole, results, requested);
      results := results + Contribution(response.body);
      requested := requested + [url];
      fuel := fuel - 1;
    }
    r := Success(results);
    CrawlUnique(pages, start, n);
  }

  /** The loop's invariant after a failed page: the collection is that failure. */
  lemma {:induction false} CrawlStepFails<T>(pages: string -> Page<T>, url: string, fuel: nat, whole: Outcome<T>,
                          results: seq<T>, requested: seq<string>)
    requires Crawl(pages, url, fuel).Some? && pages(url).Failed?
    requires whole == Prepend(results, requested, Crawl(pages, url, fuel).value)
    ensures whole == Outcome(Failure(ApiError(pages(url).status, pages(url).message)), requested + [url])
  {
  }

  /** The loop's invariant after a page: its records and URL move to the collected part. */
  lemma {:induction false} CrawlStepGoesOn<T>(pages: string -> Page<T>, url: string, fuel: nat, whole: Outcome<T>,
                           results: seq<T>, requested: seq<string>)
    requires Crawl(pages, url, fuel).Some? && pages(url).Page?
    requires whole == Prepend(results, requested, Crawl(pages, url, fuel).value)
    ensures var page := pages(url);
      match page.next
      case None => whole == Outcome(Success(results + page.items), requested + [url])
      case Some(next) =>
        && fuel > 0 && Crawl(pages, next, fuel - 1).Some?
        && whole == Prepend(results + page.items, requested + [url], Crawl(pages, next, fuel - 1).value)
  {
    var page := pages(url);
    if page.next.Some? {
      PrependTwice(results, requested, page.items, url, Crawl(pages, page.next.value, fuel - 1).value);
    } else {
      PrependTwice(results, requested, page.items, url, Outcome(Success([]), []));
      assert page.items + [] == page.items;
    }
  }

  lemma {:induction false} CrawlUnique<T>(pages: string -> Page<T>, url: string, n: nat)
    requires Crawl(pages, url, n).Some?
    ensures forall m: nat :: Crawl(pages, url, m).Some? ==> Crawl(pages, url, m) == Crawl(pages, url, n)
  {
    forall m: nat | Crawl(pages, url, m).Some? ensures Crawl(pages, url, m) == Crawl(pages, url, n) {
      CrawlDeterminate(pages, url, m, n);
    }
  }

  // ---------------------------------------------------------------------------
  // fetchIssues and fetchIssueEvents

  function IssuesPath(owner: string, repo: string): string
  {
    "/repos/" + owner + "/" + repo + "/issues?state=all&per_page=100"
  }

  function EventsPath(owner: string, repo: string, issueNumber: int): string
  {
    "/repos/" + owner + "/" + repo + "/issues/" + DecimalString(issueNumber) + "/events?per_page=100"
  }

  function IsIssue(record: Issue): bool
  {
    !record.isPullRequest
  }

  /** `issues.filter(issue => !issue.pull_request)`. */
  function DropPullRequests(records: seq<Issue>): seq<Issue>
  {
    Filter(records, IsIssue)
  }

  /**
   * The filter keeps exactly the records without a `pull_request` field, each as often as it
   * occurs, and keeps their order: filtering a concatenation filters each part.
   */
  lemma {:induction false} DropPullRequestsKeepsIssues(records: seq<Issue>, more: seq<Issue>, x: Issue)
    ensures x in DropPullRequests(records) <==> x in records && !x.isPullRequest
    ensures multiset(DropPullRequests(records))[x] == if x.isPullRequest then 0 else multiset(records)[x]
    ensures DropPullRequests(records + more) == DropPullRequests(records) + DropPullRequests(more)
  {
    FilterMembers(records, IsIssue, x);
    FilterMultiset(records, IsIssue, x);
    FilterConcat(records, more, IsIssue);
  }

  /** The issues of a repository, pull requests left out. */
  method FetchIssues(owner: string, repo: string, token: Option<string>, fetch: string -> Response<Issue>)
    returns (r: Result<seq<Issue>, Error>, requested: seq<string>)
    requires HasToken(token) ==> ChainEnds(Pages(fetch), ApiUrl + IssuesPath(owner, repo))
    ensures !HasToken(token) ==> r == Failure(NotAuthenticated) && requested == []
    ensures HasToken(token) ==> forall n: nat :: Crawl(Pages(fetch), ApiUrl + IssuesPath(owner, repo), n).Some? ==>
      var o := Crawl(Pages(fetch), ApiUrl + IssuesPath(owner, repo), n).value;
      && requested == o.requested
      && r == (if o.result.Success? then Success(DropPullRequests(o.result.value)) else o.result)
  {
    var all;
    all, requested := FetchPaginated(IssuesPath(owner, repo), token, fetch);
    if all.Success? {
      r := Success(DropPullRequests(all.value));
    } else {
      r := all;
    }
  }

  /** The events of one issue. */
  method FetchIssueEvents(owner: string, repo: string, issueNumber: int, token: Option<string>,
                          fetch: string -> Response<Event>)
    returns (r: Result<seq<Event>, Error>, requested: seq<string>)
    requires HasToken(token) ==> ChainEnds(Pages(fetch), ApiUrl + EventsPath(owner, repo, issueNumber))
    ensures !HasToken(token) ==> r == Failure(NotAuthenticated) && requested == []
    ensures HasToken(token) ==> forall n: nat :: Crawl(Pages(fetch), ApiUrl + EventsPath(owner, repo, issueNumber), n).Some? ==>
      Crawl(Pages(fetch), ApiUrl + EventsPath(owner, repo, issueNumber), n).value == Outcome(r, requested)
  {
    r, requested := FetchPaginated(EventsPath(owner, repo, issueNumber), token, fetch);
  }
}
