/**
  The `rel="next"` target of a paginated response's `Link` header, found the
  simple way `parse_next_url` does: split the header on commas, trim each
  chunk, and take the text between the first `<` and the first `>` of the
  first chunk that mentions `rel="next"`. The full grammar of section 3 of
  RFC 8288 (quoted commas, parameters in any order) is not parsed.
*/
module LinkHeader {
  import opened Wrappers

  const REL_NEXT: string := "rel=\"next\""

  /** Python's `str.isspace` for one character: the characters `str.strip()` removes. */
  predicate IsSpace(c: char) {
    || ('\t' <= c <= '\r')
    || ('\U{1C}' <= c <= ' ')
    || c == '\U{85}' || c == '\U{A0}' || c == '\U{1680}'
    || ('\U{2000}' <= c <= '\U{200A}')
    || c == '\U{2028}' || c == '\U{2029}' || c == '\U{202F}' || c == '\U{205F}' || c == '\U{3000}'
  }

  predicate AllSpace(s: string) {
    forall k :: 0 <= k < |s| ==> IsSpace(s[k])
  }

  // ---------------------------------------------------------------------------
  // str.find, `in` and str.strip

  /** `s.find(c)`: the index of the first `c` in `s`, or -1 when there is none. */
  function Find(s: string, c: char): (i: int)
    ensures -1 <= i < |s|
    ensures i == -1 <==> c !in s
    ensures 0 <= i ==> s[i] == c && c !in s[..i]
    decreases |s|
  {
    if s == [] then -1
    else if s[0] == c then 0
    else
      var k := Find(s[1..], c);
      if k == -1 then -1
      else
        assert s[..k + 1] == [s[0]] + s[1..][..k];
        k + 1
  }

  /** The first `c` is found wherever it is. */
  lemma FindAt(s: string, c: char, i: int)
    requires 0 <= i < |s| && s[i] == c && c !in s[..i]
    ensures Find(s, c) == i
  {
    var j := Find(s, c);
    assert s[..j] == s[..i] || i < j;
  }

  /** `pat` occurs in `s` starting at index `i`. */
  predicate OccursAt(s: string, pat: string, i: int) {
    0 <= i && i + |pat| <= |s| && s[i..i + |pat|] == pat
  }

  /** Python's substring test `pat in s`. */
  function Contains(s: string, pat: string): (b: bool)
    ensures b <==> exists i :: OccursAt(s, pat, i)
    decreases |s|
  {
    if |s| < |pat| then false
    else if s[..|pat|] == pat then
      assert OccursAt(s, pat, 0);
      true
    else
      var b := Contains(s[1..], pat);
      assert forall i :: OccursAt(s[1..], pat, i) <==> OccursAt(s, pat, i + 1) by {
        forall i ensures OccursAt(s[1..], pat, i) <==> OccursAt(s, pat, i + 1) {
          if 0 <= i && i + |pat| <= |s| - 1 {
            assert s[1..][i..i + |pat|] == s[i + 1..i + 1 + |pat|];
          }
        }
      }
      assert forall i :: OccursAt(s, pat, i) ==> i > 0;
      assert b ==> exists i :: OccursAt(s, pat, i) by {
        if b {
          var i :| OccursAt(s[1..], pat, i);
          assert OccursAt(s, pat, i + 1);
        }
      }
      assert (exists i :: OccursAt(s, pat, i)) ==> b by {
        if exists i :: OccursAt(s, pat, i) {
          var i :| OccursAt(s, pat, i);
          assert OccursAt(s[1..], pat, i - 1);
        }
      }
      b
  }

  /** The number of whitespace characters at the front of `s`. */
  function LeadingSpaces(s: string): (k: nat)
    ensures k <= |s| && AllSpace(s[..k])
    ensures k == |s| || !IsSpace(s[k])
    decreases |s|
  {
    if s != [] && IsSpace(s[0]) then
      var k := LeadingSpaces(s[1..]);
      assert s[..k + 1] == [s[0]] + s[1..][..k];
      k + 1
    else 0
  }

  /** The length of `s` once the whitespace at its end is dropped. */
  function TrailingStart(s: string): (j: nat)
    ensures j <= |s| && AllSpace(s[j..])
    ensures j == 0 || !IsSpace(s[j - 1])
    decreases |s|
  {
    if s != [] && IsSpace(s[|s| - 1]) then
      var j := TrailingStart(s[..|s| - 1]);
      assert s[j..] == s[..|s| - 1][j..] + [s[|s| - 1]];
      j
    else |s|
  }

  /** `s.strip()`: `s` without the whitespace at either end. */
  function Strip(s: string): string {
    var t := s[LeadingSpaces(s)..];
    t[..TrailingStart(t)]
  }

  /**
    The result of `strip` is a slice of its input, everything cut off is
    whitespace, and it neither starts nor ends with whitespace.
  */
  lemma StripMeaning(s: string)
    ensures var r := Strip(s);
            && (r == [] || (!IsSpace(r[0]) && !IsSpace(r[|r| - 1])))
            && (exists i, j :: 0 <= i <= j <= |s| && r == s[i..j] && AllSpace(s[..i]) && AllSpace(s[j..]))
            && (forall c :: c in r ==> c in s)
  {
    var i := LeadingSpaces(s);
    var t := s[i..];
    var j := TrailingStart(t);
    assert t[..j] == s[i..i + j];
    assert s[i + j..] == t[j..];
    assert j > 0 ==> t[0] == s[i];
  }

  /** Stripping leaves a chunk that already has no whitespace at its ends unchanged, with or without one leading space. */
  lemma StripTrimmed(c: string)
    requires c != [] && !IsSpace(c[0]) && !IsSpace(c[|c| - 1])
    ensures Strip(c) == c
    ensures Strip(" " + c) == c
  {
    assert LeadingSpaces(c) == 0;
    assert TrailingStart(c) == |c|;
    var p := " " + c;
    assert p[1..] == c;
    assert LeadingSpaces(p) == 1 + LeadingSpaces(c);
  }

  // ---------------------------------------------------------------------------
  // str.split

  /** Glue `parts` back together with `sep` between neighbours (`sep.join(parts)`). */
  function Join(parts: seq<string>, sep: char): string
    decreases |parts|
  {
    if |parts| == 0 then ""
    else if |parts| == 1 then parts[0]
    else parts[0] + [sep] + Join(parts[1..], sep)
  }

  /**
    `s.split(sep)`: the pieces of `s` between occurrences of `sep`, always at
    least one; joining them with `sep` gives `s` back.
  */
  function Split(s: string, sep: char): (parts: seq<string>)
    ensures |parts| >= 1
    ensures forall k :: 0 <= k < |parts| ==> sep !in parts[k]
    ensures Join(parts, sep) == s
    decreases |s|
  {
    var i := Find(s, sep);
    if i == -1 then [s]
    else
      var rest := Split(s[i + 1..], sep);
      var parts := [s[..i]] + rest;
      assert parts[1..] == rest;
      assert Join(parts, sep) == s[..i] + [sep] + Join(rest, sep);
      assert s == s[..i] + [sep] + s[i + 1..];
      parts
  }

  /** A separator-free piece followed by the separator is split off first. */
  lemma {:induction false} SplitCons(p: string, rest: string, sep: char)
    requires sep !in p
    ensures Split(p + [sep] + rest, sep) == [p] + Split(rest, sep)
  {
    var s := p + [sep] + rest;
    assert s[..|p|] == p;
    assert s[|p|] == sep;
    FindAt(s, sep, |p|);
    assert s[|p| + 1..] == rest;
  }

  /** Splitting a join of separator-free pieces gives the pieces back. */
  lemma {:induction false} SplitJoin(parts: seq<string>, sep: char)
    requires |parts| >= 1
    requires forall k :: 0 <= k < |parts| ==> sep !in parts[k]
    ensures Split(Join(parts, sep), sep) == parts
    decreases |parts|
  {
    if |parts| == 1 {
      assert Join(parts, sep) == parts[0];
      assert Find(parts[0], sep) == -1;
    } else {
      assert Join(parts, sep) == parts[0] + [sep] + Join(parts[1..], sep);
      SplitCons(parts[0], Join(parts[1..], sep), sep);
      SplitJoin(parts[1..], sep);
      assert parts == [parts[0]] + parts[1..];
    }
  }

  // ---------------------------------------------------------------------------
  // parse_next_url

  /**
    The target of one trimmed chunk: present when the chunk mentions
    `rel="next"` and its first `>` comes after its first `<`, and then the
    text strictly between those two.
  */
  function Target(part: string): Option<string> {
    if !Contains(part, REL_NEXT) then None
    else
      var start, end := Find(part, '<'), Find(part, '>');
      if start != -1 && end != -1 && end > start then Some(part[start + 1..end]) else None
  }

  /**
    A chunk has a target exactly when it mentions `rel="next"` and a `<`
    comes before its first `>`; the target is then the text strictly between
    the first `<` and the first `>`, so it holds no `>`.
  */
  lemma TargetMeaning(part: string)
    ensures Target(part).Some? <==>
              && Contains(part, REL_NEXT)
              && exists j :: 0 <= j < |part| && part[j] == '>' && '>' !in part[..j] && '<' in part[..j]
    ensures Target(part).Some? ==>
              exists i, j :: && 0 <= i < j < |part|
                             && part[i] == '<' && '<' !in part[..i]
                             && part[j] == '>' && '>' !in part[..j]
                             && Target(part).value == part[i + 1..j]
    ensures Target(part).Some? ==> '>' !in Target(part).value && forall c :: c in Target(part).value ==> c in part
  {
    if Contains(part, REL_NEXT) {
      var start, end := Find(part, '<'), Find(part, '>');
      assert forall j :: 0 <= j < |part| && part[j] == '>' && '>' !in part[..j] ==> j == end by {
        forall j | 0 <= j < |part| && part[j] == '>' && '>' !in part[..j] ensures j == end {
          FindAt(part, '>', j);
        }
      }
      if start != -1 && end != -1 && end > start {
        assert part[..end][start] == '<';
        assert part[start + 1..end] == part[..end][start + 1..];
      } else {
        assert forall j :: 0 <= j < |part| && part[j] == '>' && '>' !in part[..j] ==> '<' !in part[..j];
      }
    }
  }

  /** The target of each trimmed chunk, in order. */
  function Targets(chunks: seq<string>): seq<Option<string>> {
    seq(|chunks|, k requires 0 <= k < |chunks| => Target(Strip(chunks[k])))
  }

  /** The first present entry of `xs`: the loop of `parse_next_url` returns at the first chunk with a target. */
  function FirstSome(xs: seq<Option<string>>): (r: Option<string>)
    ensures r.None? <==> forall k :: 0 <= k < |xs| ==> xs[k].None?
    ensures r.Some? ==> exists k :: && 0 <= k < |xs| && xs[k] == r
                                    && forall j :: 0 <= j < k ==> xs[j].None?
    decreases |xs|
  {
    if xs == [] then None
    else if xs[0].Some? then xs[0]
    else
      var rest := xs[1..];
      var r := FirstSome(rest);
      assert forall k :: 1 <= k < |xs| ==> xs[k] == rest[k - 1];
      if r.Some? then
        var k :| && 0 <= k < |rest| && rest[k] == r
                 && forall j :: 0 <= j < k ==> rest[j].None?;
        assert xs[k + 1] == r && forall j :: 0 <= j < k + 1 ==> xs[j].None?;
        r
      else r
  }

  /** The first target of comma-free chunks holds neither `>` nor a comma. */
  lemma FirstTargetClean(chunks: seq<string>)
    requires forall k :: 0 <= k < |chunks| ==> ',' !in chunks[k]
    ensures var url := FirstSome(Targets(chunks));
            url.Some? ==> '>' !in url.value && ',' !in url.value
  {
    var ts := Targets(chunks);
    var url := FirstSome(ts);
    if url.Some? {
      var k :| 0 <= k < |ts| && ts[k] == url;
      StripMeaning(chunks[k]);
      TargetMeaning(Strip(chunks[k]));
    }
  }

  /**
    `parse_next_url`: nothing for a missing or empty header; otherwise the
    target of the first comma-separated chunk that has one, if any. The
    result never holds a `>` or a comma (it may hold a `<`: only the first `<`
    opens the target).
  */
  function ParseNextUrl(header: Option<string>): (url: Option<string>)
    ensures header.None? || header.value == "" ==> url.None?
    ensures url.Some? ==> '>' !in url.value && ',' !in url.value
  {
    if header.None? || header.value == "" then None
    else
      var chunks := Split(header.value, ',');
      FirstTargetClean(chunks);
      FirstSome(Targets(chunks))
  }

  /**
    The first target of a list of chunks is absent exactly when no trimmed
    chunk has a target, and otherwise the target of the first one that has.
  */
  lemma FirstTargetMeaning(chunks: seq<string>)
    ensures var url := FirstSome(Targets(chunks));
            && (url.None? <==> forall k :: 0 <= k < |chunks| ==> Target(Strip(chunks[k])).None?)
            && (url.Some? ==>
                  exists k :: && 0 <= k < |chunks| && url == Target(Strip(chunks[k]))
                              && forall j :: 0 <= j < k ==> Target(Strip(chunks[j])).None?)
  {
    var ts := Targets(chunks);
    assert forall k :: 0 <= k < |chunks| ==> ts[k] == Target(Strip(chunks[k]));
  }

  /**
    A non-empty header yields nothing exactly when none of its trimmed
    comma-separated chunks has a target, and otherwise the target of the
    first chunk that has one.
  */
  lemma ParseNextUrlChunks(header: string)
    requires header != ""
    ensures var chunks, url := Split(header, ','), ParseNextUrl(Some(header));
            && (url.None? <==> forall k :: 0 <= k < |chunks| ==> Target(Strip(chunks[k])).None?)
            && (url.Some? ==>
                  exists k :: && 0 <= k < |chunks| && url == Target(Strip(chunks[k]))
                              && forall j :: 0 <= j < k ==> Target(Strip(chunks[j])).None?)
  {
    FirstTargetMeaning(Split(header, ','));
    assert ParseNextUrl(Some(header)) == FirstSome(Targets(Split(header, ',')));
  }

  // ---------------------------------------------------------------------------
  // Headers as a server writes them

  /** One link of a header: a target and its relation type. */
  datatype Link = Link(url: string, rel: string)

  /** `<url>; rel="rel"`, the form GitHub uses for each link. */
  function RenderLink(l: Link): string {
    "<" + l.url + ">; rel=\"" + l.rel + "\""
  }

  /** The chunks of a rendered header: links are separated by `", "`. */
  function Chunks(links: seq<Link>): seq<string> {
    seq(|links|, k requires 0 <= k < |links| => if k == 0 then RenderLink(links[0]) else " " + RenderLink(links[k]))
  }

  function RenderHeader(links: seq<Link>): string {
    Join(Chunks(links), ',')
  }

  /** A link whose target has no `>`, comma or quote and whose relation has no comma or quote. */
  predicate Renderable(l: Link) {
    '>' !in l.url && ',' !in l.url && '"' !in l.url && ',' !in l.rel && '"' !in l.rel
  }

  /** The target of the first link whose relation is `next`. */
  function NextOf(links: seq<Link>): Option<string>
    decreases |links|
  {
    if links == [] then None
    else if links[0].rel == "next" then Some(links[0].url)
    else NextOf(links[1..])
  }

  /** The only quotes of a rendered link are the two around its relation. */
  lemma RenderedQuotes(l: Link, p: int)
    requires Renderable(l)
    requires 0 <= p < |RenderLink(l)| && RenderLink(l)[p] == '"'
    ensures p == |l.url| + 8 || p == |l.url| + 9 + |l.rel|
  {
  }

  /** A link whose relation is `next` mentions `rel="next"` right after `<url>; `. */
  lemma RenderedNextOccurs(l: Link)
    requires l.rel == "next"
    ensures OccursAt(RenderLink(l), REL_NEXT, |l.url| + 4)
  {
    var c := RenderLink(l);
    var u := |l.url|;
    assert c == ("<" + l.url + ">; ") + REL_NEXT;
    assert c[u + 4..] == REL_NEXT;
  }

  /** Where a rendered link mentions `rel="next"`, its relation is `next`. */
  lemma RenderedOccursIsNext(l: Link, i: int)
    requires Renderable(l)
    requires OccursAt(RenderLink(l), REL_NEXT, i)
    ensures l.rel == "next"
  {
    var c := RenderLink(l);
    var u := |l.url|;
    assert c[i + 4] == '"' by { assert c[i..i + 10][4] == c[i + 4]; }
    assert c[i + 9] == '"' by { assert c[i..i + 10][9] == c[i + 9]; }
    RenderedQuotes(l, i + 4);
    RenderedQuotes(l, i + 9);
    assert i == u + 4 && |l.rel| == 4;
    forall k | 0 <= k < 4 ensures l.rel[k] == "next"[k] {
      assert c[u + 9 + k] == l.rel[k];
      assert c[i..i + 10][5 + k] == c[i + 5 + k];
    }
  }

  /** A rendered link mentions `rel="next"` exactly when its relation is `next`. */
  lemma RenderedMentionsNext(l: Link)
    requires Renderable(l)
    ensures Contains(RenderLink(l), REL_NEXT) <==> l.rel == "next"
  {
    if l.rel == "next" {
      RenderedNextOccurs(l);
    }
    if Contains(RenderLink(l), REL_NEXT) {
      var i :| OccursAt(RenderLink(l), REL_NEXT, i);
      RenderedOccursIsNext(l, i);
    }
  }

  /** The target of a rendered link is its url when its relation is `next`, and nothing otherwise. */
  lemma {:induction false} RenderedTarget(l: Link)
    requires Renderable(l)
    ensures Target(RenderLink(l)) == if l.rel == "next" then Some(l.url) else None
  {
    var c := RenderLink(l);
    var u := |l.url|;
    RenderedMentionsNext(l);
    assert c[..0] == [];
    FindAt(c, '<', 0);
    assert c[..u + 1] == "<" + l.url;
    assert c[u + 1] == '>';
    FindAt(c, '>', u + 1);
    assert c[1..u + 1] == l.url;
  }

  /** A rendered header is cut back into its chunks, and each chunk trims to its link. */
  lemma RenderedChunks(links: seq<Link>)
    requires |links| >= 1
    requires forall k :: 0 <= k < |links| ==> Renderable(links[k])
    ensures Split(RenderHeader(links), ',') == Chunks(links)
    ensures forall k :: 0 <= k < |links| ==> Strip(Chunks(links)[k]) == RenderLink(links[k])
  {
    var chunks := Chunks(links);
    forall k | 0 <= k < |links| ensures ',' !in chunks[k] && Strip(chunks[k]) == RenderLink(links[k]) {
      var l := links[k];
      var c := RenderLink(l);
      assert ',' !in c;
      StripTrimmed(c);
    }
    SplitJoin(chunks, ',');
  }

  /** The first present entry of the links' targets is the target of the first `next` link. */
  lemma {:induction false} FirstSomeOfLinks(ts: seq<Option<string>>, links: seq<Link>)
    requires |ts| == |links|
    requires forall j :: 0 <= j < |links| ==> ts[j] == if links[j].rel == "next" then Some(links[j].url) else None
    ensures FirstSome(ts) == NextOf(links)
    decreases |links|
  {
    if links != [] {
      FirstSomeOfLinks(ts[1..], links[1..]);
    }
  }

  /** Chunks that trim to rendered links yield the target of the first `next` link. */
  lemma {:induction false} FirstTargetOfLinks(chunks: seq<string>, links: seq<Link>)
    requires |chunks| == |links|
    requires forall j :: 0 <= j < |links| ==> Renderable(links[j])
    requires forall j :: 0 <= j < |links| ==> Strip(chunks[j]) == RenderLink(links[j])
    ensures FirstSome(Targets(chunks)) == NextOf(links)
  {
    var ts := Targets(chunks);
    forall j | 0 <= j < |links|
      ensures ts[j] == if links[j].rel == "next" then Some(links[j].url) else None
    {
      RenderedTarget(links[j]);
    }
    FirstSomeOfLinks(ts, links);
  }

  /**
    Round trip: a header written the way GitHub writes it parses to the target
    of its first `next` link, and to nothing when it has none.
  */
  lemma {:induction false} ParseRenderedHeader(links: seq<Link>)
    requires forall k :: 0 <= k < |links| ==> Renderable(links[k])
    ensures ParseNextUrl(Some(RenderHeader(links))) == NextOf(links)
  {
    if links != [] {
      RenderedChunks(links);
      FirstTargetOfLinks(Chunks(links), links);
      assert RenderHeader(links) != "" by {
        var chunks := Chunks(links);
        if |chunks| > 1 {
          assert RenderHeader(links) == chunks[0] + [','] + Join(chunks[1..], ',');
        }
      }
    }
  }
}
