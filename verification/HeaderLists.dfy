/** Reading comma-separated lists: If-None-Match and the configured CORS origins. */
module HeaderLists {
  import opened Prelude
  import opened Text

  predicate IsBlank(c: char) {
    c == ' ' || c == '\t'
  }

  predicate Blanks(s: string) {
    forall i :: 0 <= i < |s| ==> IsBlank(s[i])
  }

  function TrimLeft(s: string): string {
    if s != [] && IsBlank(s[0]) then TrimLeft(s[1..]) else s
  }

  function TrimRight(s: string): string {
    if s != [] && IsBlank(s[|s| - 1]) then TrimRight(s[..|s| - 1]) else s
  }

  /** Without surrounding spaces and tabs; "" if there is nothing else. */
  function Trim(s: string): string {
    TrimRight(TrimLeft(s))
  }

  /** Text with nothing to trim. */
  predicate Tight(s: string) {
    s != "" && !IsBlank(s[0]) && !IsBlank(s[|s| - 1])
  }

  lemma {:induction false} TrimLeftPadding(pad: string, s: string)
    requires Blanks(pad)
    ensures TrimLeft(pad + s) == TrimLeft(s)
  {
    if pad == [] {
      assert pad + s == s;
    } else {
      assert (pad + s)[1..] == pad[1..] + s;
      TrimLeftPadding(pad[1..], s);
    }
  }

  lemma {:induction false} TrimRightPadding(s: string, pad: string)
    requires Blanks(pad)
    ensures TrimRight(s + pad) == TrimRight(s)
  {
    if pad == [] {
      assert s + pad == s;
    } else {
      assert (s + pad)[..|s + pad| - 1] == s + pad[..|pad| - 1];
      TrimRightPadding(s, pad[..|pad| - 1]);
    }
  }

  lemma TrimPadded(lead: string, s: string, trail: string)
    requires Blanks(lead) && Blanks(trail) && Tight(s)
    ensures Trim(lead + s + trail) == s
  {
    assert lead + s + trail == lead + (s + trail);
    TrimLeftPadding(lead, s + trail);
    assert TrimLeft(s + trail) == s + trail;
    TrimRightPadding(s, trail);
  }

  lemma TrimBlank(pad: string)
    requires Blanks(pad)
    ensures Trim(pad) == ""
  {
    assert pad + [] == pad;
    TrimLeftPadding(pad, []);
  }

  // ----- If-None-Match -----

  function StripWeak(s: string): string {
    if "W/" <= s then s[2..] else s
  }

  /** What one token is compared as; a blank token is skipped. */
  function Candidate(token: string): Option<string> {
    if Trim(token) == "" then None else Some(StripWeak(Trim(token)))
  }

  predicate AnyMatch(tokens: seq<string>, etag: string) {
    exists i :: 0 <= i < |tokens| && Candidate(tokens[i]) == Some(etag)
  }

  predicate Matches(header: string, etag: string) {
    header != "" && ('*' in header || AnyMatch(Tokens(header), etag))
  }

  method IfNoneMatchMatches(header: string, etag: string) returns (r: bool)
    ensures r == Matches(header, etag)
  {
    if header == "" {
      return false;
    }
    if IndexOf(header, '*') < |header| {
      assert header[IndexOf(header, '*')] == '*';
      return true;
    }
    var stream := header;
    while stream != ""
      invariant AnyMatch(Tokens(header), etag) == AnyMatch(Tokens(stream), etag)
      decreases |stream|
    {
      var i := IndexOf(stream, ',');
      var token, rest := stream[..i], if i < |stream| then stream[i + 1..] else "";
      assert Tokens(stream) == [token] + Tokens(rest);
      AnyMatchAppend([token], Tokens(rest), etag);
      stream := rest;
      var trimmed := Trim(token);
      if trimmed == "" {
        continue;
      }
      if "W/" <= trimmed {
        trimmed := trimmed[2..];
      }
      if trimmed == etag {
        assert AnyMatch([token], etag) by {
          assert Candidate([token][0]) == Some(etag);
        }
        return true;
      }
    }
    return false;
  }

  lemma AnyMatchAppend(a: seq<string>, b: seq<string>, etag: string)
    ensures AnyMatch(a + b, etag) <==> AnyMatch(a, etag) || AnyMatch(b, etag)
  {
    var s := a + b;
    if AnyMatch(s, etag) {
      var i :| 0 <= i < |s| && Candidate(s[i]) == Some(etag);
      assert if i < |a| then a[i] == s[i] else b[i - |a|] == s[i];
    }
    if AnyMatch(a, etag) {
      var i :| 0 <= i < |a| && Candidate(a[i]) == Some(etag);
      assert s[i] == a[i];
    }
    if AnyMatch(b, etag) {
      var i :| 0 <= i < |b| && Candidate(b[i]) == Some(etag);
      assert s[|a| + i] == b[i];
    }
  }

  /** A final empty piece, which `getline` does not deliver, never matters. */
  lemma {:induction false} TokensMatchLikePieces(s: string, etag: string)
    ensures AnyMatch(Tokens(s), etag) <==> AnyMatch(Pieces(s), etag)
    decreases |s|
  {
    hide IndexOf, AnyMatch;
    var i := IndexOf(s, ',');
    if s == "" {
      EmptyNeverMatches(etag);
    } else if i < |s| {
      hide Pieces, Tokens;
      FirstPiece(s, i, s[i + 1..]);
      TokensMatchLikePieces(s[i + 1..], etag);
      AnyMatchAppend([s[..i]], Tokens(s[i + 1..]), etag);
      AnyMatchAppend([s[..i]], Pieces(s[i + 1..]), etag);
    }
  }

  lemma EmptyNeverMatches(etag: string)
    ensures !AnyMatch(Tokens(""), etag) && !AnyMatch(Pieces(""), etag)
  {
    TrimBlank("");
    assert Pieces("") == [""];
  }

  // ----- entity-tag lists -----

  function Quoted(content: string): string {
    "\"" + content + "\""
  }

  /** A list element as section 7 of RFC 7230 lets a sender write it: a tag, or nothing between commas. */
  datatype Element =
    | Tag(lead: string, weak: bool, content: string, trail: string)
    | Empty(pad: string)
  {
    predicate Valid() {
      match this
      case Tag(lead, _, content, trail) => Blanks(lead) && Blanks(trail) && '"' !in content
      case Empty(pad) => Blanks(pad)
    }

    function Core(): string
      requires Tag?
    {
      (if weak then "W/" else "") + Quoted(content)
    }

    function Render(): string {
      match this
      case Tag(lead, _, _, trail) => lead + Core() + trail
      case Empty(pad) => pad
    }
  }

  function Render(es: seq<Element>): string {
    if es == [] then "" else if |es| == 1 then es[0].Render() else es[0].Render() + "," + Render(es[1..])
  }

  function Quotes(s: string): nat {
    if s == [] then 0 else (if s[0] == '"' then 1 else 0) + Quotes(s[1..])
  }

  lemma {:induction false} QuotesAppend(a: string, b: string)
    ensures Quotes(a + b) == Quotes(a) + Quotes(b)
  {
    if a == [] {
      assert a + b == b;
    } else {
      assert (a + b)[1..] == a[1..] + b;
      QuotesAppend(a[1..], b);
    }
  }

  lemma {:induction false} NoQuotes(s: string)
    requires '"' !in s
    ensures Quotes(s) == 0
  {
    if s != [] {
      assert s[0] in s;
      NoQuotes(s[1..]);
    }
  }

  lemma QuotesAround(s: string, i: nat)
    requires i < |s|
    ensures Quotes(s[..i]) + Quotes(s[i + 1..]) <= Quotes(s)
  {
    hide Quotes;
    assert s == s[..i] + s[i..];
    QuotesAppend(s[..i], s[i..]);
    assert s[i..] == [s[i]] + s[i + 1..];
    QuotesAppend([s[i]], s[i + 1..]);
  }

  lemma {:induction false} PieceQuotes(s: string, piece: string)
    requires piece in Pieces(s)
    ensures Quotes(piece) <= Quotes(s)
    decreases |s|
  {
    hide IndexOf, Quotes;
    var i := IndexOf(s, ',');
    if i < |s| {
      QuotesAround(s, i);
      if piece in Pieces(s[i + 1..]) {
        PieceQuotes(s[i + 1..], piece);
      }
    } else {
      assert s[..i] == s;
    }
  }

  lemma {:induction false} TrimLeftQuotes(s: string)
    ensures Quotes(TrimLeft(s)) <= Quotes(s)
  {
    if s != [] && IsBlank(s[0]) {
      TrimLeftQuotes(s[1..]);
    }
  }

  lemma {:induction false} TrimRightQuotes(s: string)
    ensures Quotes(TrimRight(s)) <= Quotes(s)
  {
    if s != [] && IsBlank(s[|s| - 1]) {
      TrimRightQuotes(s[..|s| - 1]);
      assert s == s[..|s| - 1] + [s[|s| - 1]];
      QuotesAppend(s[..|s| - 1], [s[|s| - 1]]);
    }
  }

  lemma CandidateQuotes(token: string)
    requires Candidate(token).Some?
    ensures Quotes(Candidate(token).value) <= Quotes(token)
  {
    TrimLeftQuotes(token);
    TrimRightQuotes(TrimLeft(token));
    var trimmed := Trim(token);
    if "W/" <= trimmed {
      assert trimmed == trimmed[..2] + trimmed[2..];
      QuotesAppend(trimmed[..2], trimmed[2..]);
    }
  }

  lemma QuotedHasTwo(content: string)
    ensures Quotes(Quoted(content)) >= 2
  {
    QuotesAppend("\"" + content, "\"");
    QuotesAppend("\"", content);
  }

  /** Text with fewer than two quotes has no piece that is a quoted tag. */
  lemma FewQuotesNoMatch(s: string, content: string)
    requires Quotes(s) <= 1
    ensures !AnyMatch(Pieces(s), Quoted(content))
  {
    QuotedHasTwo(content);
    forall i | 0 <= i < |Pieces(s)|
      ensures Candidate(Pieces(s)[i]) != Some(Quoted(content))
    {
      PieceQuotes(s, Pieces(s)[i]);
      if Candidate(Pieces(s)[i]).Some? {
        CandidateQuotes(Pieces(s)[i]);
      }
    }
  }

  lemma QuotedInjective(a: string, b: string)
    requires Quoted(a) == Quoted(b)
    ensures a == b
  {
    assert Quoted(a)[1..|a| + 1] == a;
    assert Quoted(b)[1..|b| + 1] == b;
  }

  lemma TagCandidate(e: Element)
    requires e.Tag? && e.Valid()
    ensures Candidate(e.Render()) == Some(Quoted(e.content))
  {
    assert Tight(e.Core());
    TrimPadded(e.lead, e.Core(), e.trail);
    if e.weak {
      assert e.Core()[2..] == Quoted(e.content);
    } else {
      assert e.Core() == Quoted(e.content);
    }
  }

  /** A tag with a comma inside falls apart into pieces none of which is a quoted tag. */
  lemma CommaTagNeverMatches(e: Element, content: string)
    requires e.Tag? && e.Valid() && ',' in e.content
    ensures !AnyMatch(Pieces(e.Render()), Quoted(content))
  {
    hide IndexOf, Pieces;
    var i := IndexOf(e.content, ',');
    IndexOfPresent(e.content, ',');
    SplitAtComma(e.content, i);
    var left := e.lead + (if e.weak then "W/" else "") + "\"" + e.content[..i];
    var right := e.content[i + 1..] + "\"" + e.trail;
    RenderSplit(e, i, left, right);
    LeftQuotes(e, i);
    RightQuotes(e, i + 1);
    FewQuotesNoMatch(left, content);
    FewQuotesNoMatch(right, content);
    PiecesOfJoin(left, right);
    AnyMatchAppend(Pieces(left), Pieces(right), Quoted(content));
  }

  lemma SplitAtComma(s: string, i: nat)
    requires i < |s| && s[i] == ','
    ensures s == s[..i] + "," + s[i + 1..]
  {
    assert s[..i] + "," == s[..i + 1];
  }

  lemma RenderSplit(e: Element, i: nat, left: string, right: string)
    requires e.Tag? && i < |e.content| && e.content == e.content[..i] + "," + e.content[i + 1..]
    requires left == e.lead + (if e.weak then "W/" else "") + "\"" + e.content[..i]
    requires right == e.content[i + 1..] + "\"" + e.trail
    ensures e.Render() == left + "," + right
  {
    var w := if e.weak then "W/" else "";
    assert e.Render() == e.lead + (w + ("\"" + e.content + "\"")) + e.trail;
    Regroup(e.lead, w, "\"", e.content[..i], ",", e.content[i + 1..], e.trail);
  }

  lemma Regroup(l: string, w: string, q: string, a: string, comma: string, c: string, t: string)
    ensures l + (w + (q + (a + comma + c) + q)) + t == l + w + q + a + comma + (c + q + t)
  {
    assert q + (a + comma + c) + q == q + a + comma + (c + q);
    assert w + (q + a + comma + (c + q)) == w + q + a + comma + (c + q);
    assert l + (w + q + a + comma + (c + q)) == l + w + q + a + comma + (c + q);
    assert l + w + q + a + comma + (c + q) + t == l + w + q + a + comma + (c + q + t);
  }

  lemma {:induction false} BlanksHaveNoQuotes(s: string)
    requires Blanks(s)
    ensures Quotes(s) == 0
  {
    if s != [] {
      BlanksHaveNoQuotes(s[1..]);
    }
  }

  lemma LeftQuotes(e: Element, i: nat)
    requires e.Tag? && e.Valid() && i <= |e.content|
    ensures Quotes(e.lead + (if e.weak then "W/" else "") + "\"" + e.content[..i]) <= 1
  {
    var w := if e.weak then "W/" else "";
    BlanksHaveNoQuotes(e.lead);
    NoQuotes(w);
    NoQuotes(e.content[..i]);
    QuotesAppend(e.lead, w);
    QuotesAppend(e.lead + w, "\"");
    QuotesAppend(e.lead + w + "\"", e.content[..i]);
  }

  lemma RightQuotes(e: Element, i: nat)
    requires e.Tag? && e.Valid() && i <= |e.content|
    ensures Quotes(e.content[i..] + "\"" + e.trail) <= 1
  {
    NoQuotes(e.content[i..]);
    BlanksHaveNoQuotes(e.trail);
    QuotesAppend(e.content[i..], "\"");
    QuotesAppend(e.content[i..] + "\"", e.trail);
  }

  lemma CommaFreeRender(e: Element)
    requires e.Valid() && (e.Tag? ==> ',' !in e.content)
    ensures ',' !in e.Render()
  {
    if e.Tag? {
      assert ',' !in Quoted(e.content);
      assert ',' !in e.Core();
      assert ',' !in e.lead + e.Core();
    }
  }

  lemma SingleMatch(token: string, etag: string)
    ensures AnyMatch([token], etag) <==> Candidate(token) == Some(etag)
  {
    assert Candidate([token][0]) == Candidate(token);
  }

  /** The pieces of one element match exactly if it is the tag looked for. */
  lemma ElementMatch(e: Element, content: string)
    requires e.Valid() && ',' !in content
    ensures AnyMatch(Pieces(e.Render()), Quoted(content)) <==> e.Tag? && e.content == content
  {
    hide Pieces, AnyMatch, Candidate;
    if e.Tag? && ',' in e.content {
      CommaTagNeverMatches(e, content);
    } else {
      CommaFreeRender(e);
      CommaFreePiece(e.Render());
      SingleMatch(e.Render(), Quoted(content));
      if e.Tag? {
        TagCandidate(e);
        if Quoted(e.content) == Quoted(content) {
          QuotedInjective(e.content, content);
        }
      } else {
        BlankCandidate(e.pad);
      }
    }
  }

  lemma BlankCandidate(pad: string)
    requires Blanks(pad)
    ensures Candidate(pad) == None
  {
    TrimBlank(pad);
  }

  ghost predicate ValidList(es: seq<Element>) {
    forall e :: e in es ==> e.Valid()
  }

  lemma {:induction false} ListMatch(es: seq<Element>, content: string)
    requires ValidList(es) && ',' !in content
    ensures AnyMatch(Tokens(Render(es)), Quoted(content)) <==> exists e :: e in es && e.Tag? && e.content == content
  {
    hide Pieces, Tokens, AnyMatch, Candidate;
    if es == [] {
      assert !AnyMatch(Tokens(""), Quoted(content)) by {
        NothingMatches(Quoted(content));
      }
    } else {
      assert es[0] in es;
      ElementMatch(es[0], content);
      if |es| == 1 {
        TokensMatchLikePieces(Render(es), Quoted(content));
        assert forall e :: e in es ==> e == es[0];
      } else {
        ListMatch(es[1..], content);
        PiecesOfJoin(es[0].Render(), Render(es[1..]));
        AnyMatchAppend(Pieces(es[0].Render()), Tokens(Render(es[1..])), Quoted(content));
        assert forall e :: e in es <==> e == es[0] || e in es[1..];
      }
    }
  }

  lemma NothingMatches(etag: string)
    ensures !AnyMatch(Tokens(""), etag)
  {
  }

  lemma StarInElement(e: Element)
    requires e.Valid()
    ensures '*' in e.Render() <==> e.Tag? && '*' in e.content
  {
    if e.Tag? {
      assert '*' in Quoted(e.content) <==> '*' in e.content;
      assert '*' in e.Core() <==> '*' in Quoted(e.content);
      assert '*' in e.lead + e.Core() <==> '*' in e.Core();
    }
  }

  lemma {:induction false} StarInList(es: seq<Element>)
    requires ValidList(es)
    ensures '*' in Render(es) <==> exists e :: e in es && e.Tag? && '*' in e.content
  {
    if es != [] {
      assert es[0] in es;
      StarInElement(es[0]);
      if |es| == 1 {
        assert forall e :: e in es ==> e == es[0];
      } else {
        StarInList(es[1..]);
        assert '*' in Render(es) <==> '*' in es[0].Render() || '*' in Render(es[1..]);
        assert forall e :: e in es <==> e == es[0] || e in es[1..];
      }
    }
  }

  /**
   * For every well-formed entity-tag list, with any padding, weak prefixes,
   * empty elements, and even commas inside tags, a comma-free etag matches
   * exactly when it is one of the listed tags or some listed tag contains '*'.
   */
  lemma TagListMatchesIff(es: seq<Element>, content: string)
    requires ValidList(es) && ',' !in content
    ensures Matches(Render(es), Quoted(content))
            <==> exists e :: e in es && e.Tag? && (e.content == content || '*' in e.content)
  {
    hide Tokens, AnyMatch, Render;
    ListMatch(es, content);
    StarInList(es);
    if Render(es) == "" {
      NothingMatches(Quoted(content));
    }
    var header := Render(es);
    assert Matches(header, Quoted(content))
           <==> (exists e :: e in es && e.Tag? && e.content == content) || (exists e :: e in es && e.Tag? && '*' in e.content);
  }

  /** One listed tag with a star inside is enough: the header then matches every etag, as the wildcard would. */
  lemma StarInsideTagMatchesAnything(es: seq<Element>, starred: Element, etag: string)
    requires ValidList(es) && starred in es && starred.Tag? && '*' in starred.content
    ensures Matches(Render(es), etag)
  {
    hide Render, Tokens, AnyMatch;
    StarInList(es);
  }

  /** The bare wildcard, padded or not, matches every etag. */
  lemma WildcardMatches(lead: string, trail: string, etag: string)
    requires Blanks(lead) && Blanks(trail)
    ensures Matches(lead + "*" + trail, etag)
  {
    assert (lead + "*" + trail)[|lead|] == '*';
  }

  lemma {:induction false} TrimLeftSplits(s: string) returns (lead: string)
    ensures Blanks(lead) && s == lead + TrimLeft(s)
    ensures TrimLeft(s) != "" ==> !IsBlank(TrimLeft(s)[0])
  {
    lead := "";
    if s != [] && IsBlank(s[0]) {
      var rest := TrimLeftSplits(s[1..]);
      lead := [s[0]] + rest;
      assert s == [s[0]] + s[1..];
    }
  }

  lemma {:induction false} TrimRightSplits(s: string) returns (trail: string)
    ensures Blanks(trail) && s == TrimRight(s) + trail
    ensures TrimRight(s) != "" ==> !IsBlank(TrimRight(s)[|TrimRight(s)| - 1])
  {
    trail := "";
    if s != [] && IsBlank(s[|s| - 1]) {
      var rest := TrimRightSplits(s[..|s| - 1]);
      trail := rest + [s[|s| - 1]];
      assert s == s[..|s| - 1] + [s[|s| - 1]];
    }
  }

  predicate SpacesAndTabs(s: string) {
    forall i :: 0 <= i < |s| ==> s[i] == ' ' || s[i] == '\t'
  }

  /** The text is this core between any spaces and tabs. */
  ghost predicate PaddedAs(s: string, core: string) {
    exists lead, trail :: SpacesAndTabs(lead) && SpacesAndTabs(trail) && s == lead + core + trail
  }

  /** Trimming finds exactly what stands between the blanks. */
  lemma TrimIff(s: string, core: string)
    requires Tight(core)
    ensures Trim(s) == core <==> PaddedAs(s, core)
  {
    if Trim(s) == core {
      var lead := TrimLeftSplits(s);
      var trail := TrimRightSplits(TrimLeft(s));
      assert s == lead + (core + trail) == lead + core + trail;
      assert SpacesAndTabs(lead) && SpacesAndTabs(trail);
    }
    if PaddedAs(s, core) {
      var lead, trail :| SpacesAndTabs(lead) && SpacesAndTabs(trail) && s == lead + core + trail;
      TrimPadded(lead, core, trail);
    }
  }

  lemma CandidateIff(piece: string, content: string)
    ensures Candidate(piece) == Some(Quoted(content))
            <==> PaddedAs(piece, Quoted(content)) || PaddedAs(piece, "W/" + Quoted(content))
  {
    hide Trim, PaddedAs;
    var (strong, weak) := (Quoted(content), "W/" + Quoted(content));
    TrimIff(piece, strong);
    TrimIff(piece, weak);
    assert weak[2..] == strong;
    assert strong[0] == '"';
    if "W/" <= Trim(piece) {
      assert Trim(piece) == "W/" + Trim(piece)[2..];
    }
  }

  /**
   * The decision on any header text whatsoever: a star anywhere, or a piece
   * between commas that is the etag, possibly weak, between blanks.
   */
  lemma HeaderMatchesIff(header: string, content: string)
    ensures Matches(header, Quoted(content))
            <==> || '*' in header
                 || exists p :: p in Pieces(header)
                                && (PaddedAs(p, Quoted(content)) || PaddedAs(p, "W/" + Quoted(content)))
  {
    hide Pieces, Tokens, Candidate, PaddedAs;
    TokensMatchLikePieces(header, Quoted(content));
    EmptyNeverMatches(Quoted(content));
    forall p | p in Pieces(header)
      ensures Candidate(p) == Some(Quoted(content))
              <==> PaddedAs(p, Quoted(content)) || PaddedAs(p, "W/" + Quoted(content))
    {
      CandidateIff(p, content);
    }
  }

  // ----- CORS origins -----

  /** `parse_origin_list` as a function: the trimmed non-blank tokens. */
  function Origins(tokens: seq<string>): seq<string> {
    if tokens == [] then []
    else
      var item := Trim(tokens[|tokens| - 1]);
      Origins(tokens[..|tokens| - 1]) + if item == "" then [] else [item]
  }

  /** On any setting: an origin is read exactly if some item between commas is it between blanks. */
  lemma {:induction false} OriginReadIff(tokens: seq<string>, origin: string)
    requires Tight(origin)
    ensures origin in Origins(tokens) <==> exists p :: p in tokens && PaddedAs(p, origin)
  {
    hide Trim, PaddedAs;
    if tokens != [] {
      var init, last := tokens[..|tokens| - 1], tokens[|tokens| - 1];
      OriginReadIff(init, origin);
      TrimIff(last, origin);
      assert forall p :: p in tokens <==> p in init || p == last;
    }
  }

  lemma {:induction false} OriginsAppend(a: seq<string>, b: seq<string>)
    ensures Origins(a + b) == Origins(a) + Origins(b)
  {
    hide Trim;
    if b == [] {
      assert a + b == a;
    } else {
      OriginsAppend(a, b[..|b| - 1]);
      assert (a + b)[..|a + b| - 1] == a + b[..|b| - 1];
    }
  }

  lemma OriginsOfOne(token: string)
    ensures Origins([token]) == if Trim(token) == "" then [] else [Trim(token)]
  {
    assert [token][..0] == [];
  }

  lemma FirstToken(stream: string, i: nat, rest: string)
    requires stream != "" && i == IndexOf(stream, ',')
    requires rest == if i < |stream| then stream[i + 1..] else ""
    ensures Tokens(stream) == [stream[..i]] + Tokens(rest)
    ensures Origins(Tokens(stream)) == Origins([stream[..i]]) + Origins(Tokens(rest))
  {
    hide Origins, Trim, IndexOf;
    FirstPiece(stream, i, rest);
    OriginsAppend([stream[..i]], Tokens(rest));
  }

  method ParseOriginList(csv: string) returns (origins: seq<string>)
    ensures origins == Origins(Tokens(csv))
  {
    hide Tokens, Origins, Trim, IndexOf;
    origins := [];
    var stream := csv;
    assert [] + Origins(Tokens(csv)) == Origins(Tokens(csv));
    while stream != ""
      invariant origins + Origins(Tokens(stream)) == Origins(Tokens(csv))
      decreases |stream|
    {
      var i := IndexOf(stream, ',');
      var item, rest := stream[..i], if i < |stream| then stream[i + 1..] else "";
      FirstToken(stream, i, rest);
      OriginsOfOne(item);
      assert origins + (Origins([item]) + Origins(Tokens(rest))) == (origins + Origins([item])) + Origins(Tokens(rest));
      stream := rest;
      var trimmed := Trim(item);
      if trimmed != "" {
        origins := origins + [trimmed];
      }
    }
    NoTokens();
    NoOrigins();
  }

  lemma NoOrigins()
    ensures Origins([]) == []
  {
  }

  /** An entry of the configured list: an origin with padding, or nothing. */
  datatype Entry = Origin(lead: string, text: string, trail: string) | NoOrigin(pad: string) {
    predicate Valid() {
      match this
      case Origin(lead, text, trail) => Blanks(lead) && Blanks(trail) && Tight(text) && ',' !in text
      case NoOrigin(pad) => Blanks(pad)
    }

    function Render(): string {
      match this
      case Origin(lead, text, trail) => lead + text + trail
      case NoOrigin(pad) => pad
    }
  }

  function RenderEntries(entries: seq<Entry>): string {
    if entries == [] then ""
    else if |entries| == 1 then entries[0].Render()
    else entries[0].Render() + "," + RenderEntries(entries[1..])
  }

  function OriginTexts(entries: seq<Entry>): seq<string> {
    if entries == [] then []
    else (if entries[0].Origin? then [entries[0].text] else []) + OriginTexts(entries[1..])
  }

  lemma EntryPieces(entry: Entry)
    requires entry.Valid()
    ensures Pieces(entry.Render()) == [entry.Render()]
    ensures Origins([entry.Render()]) == if entry.Origin? then [entry.text] else []
  {
    hide Pieces, Origins, Trim;
    if entry.Origin? {
      assert ',' !in entry.lead + entry.text;
      TrimPadded(entry.lead, entry.text, entry.trail);
    } else {
      TrimBlank(entry.pad);
    }
    CommaFreePiece(entry.Render());
    OriginsOfOne(entry.Render());
  }

  lemma {:induction false} TokensOriginsLikePieces(s: string)
    ensures Origins(Tokens(s)) == Origins(Pieces(s))
    decreases |s|
  {
    hide IndexOf, Origins, Trim;
    var i := IndexOf(s, ',');
    if s == "" {
      EmptyPieces();
    } else if i < |s| {
      hide Pieces, Tokens;
      FirstPiece(s, i, s[i + 1..]);
      TokensOriginsLikePieces(s[i + 1..]);
      OriginsAppend([s[..i]], Tokens(s[i + 1..]));
      OriginsAppend([s[..i]], Pieces(s[i + 1..]));
    }
  }

  lemma EmptyPieces()
    ensures Origins(Tokens("")) == Origins(Pieces("")) == []
  {
    TrimBlank("");
    OriginsOfOne("");
    assert Pieces("") == [""];
  }

  /** A padded list of origins, with empty entries anywhere, reads back as its origins in order. */
  lemma {:induction false} OriginListRoundTrip(entries: seq<Entry>)
    requires forall entry :: entry in entries ==> entry.Valid()
    ensures Origins(Tokens(RenderEntries(entries))) == OriginTexts(entries)
  {
    hide Pieces, Tokens, Trim;
    if entries == [] {
      assert Tokens("") == [] by {
        NoTokens();
      }
    } else {
      assert entries[0] in entries;
      EntryPieces(entries[0]);
      if |entries| == 1 {
        TokensOriginsLikePieces(RenderEntries(entries));
        assert OriginTexts(entries[1..]) == [];
      } else {
        OriginListRoundTrip(entries[1..]);
        PiecesOfJoin(entries[0].Render(), RenderEntries(entries[1..]));
        OriginsAppend([entries[0].Render()], Tokens(RenderEntries(entries[1..])));
      }
    }
  }

  lemma NoTokens()
    ensures Tokens("") == []
  {
  }
}
