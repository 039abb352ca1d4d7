/** The body of one insertArXivLinks pass: which page it is on, the
    candidate loop of one record, the per-result tasks of a search page and
    the polled article page. */
module Passes {
  import opened JsStrings
  import opened Metadata
  import opened OpenAlex
  import opened Verify

  predicate IsSearchUrl(href: string) {
    Contains(href, "/publications-search") || Contains(href, "/search/publications")
  }

  datatype PageKind = SearchPage | ArticlePage | OtherPage

  /** Search pages are recognised first; an article page is one whose URL
      holds "/article?mr=". */
  function KindOf(href: string): PageKind {
    if IsSearchUrl(href) then SearchPage
    else if Contains(href, "/article?mr=") then ArticlePage
    else OtherPage
  }

  /** Whether verifyAndInject accepts a candidate, given the injection
      point, the link state the loop started from (a rejection leaves it
      unchanged), the local title and what the network answers. */
  function Accepts(hasTarget: bool, linked: bool, title: string, remoteOf: string -> Remote): string -> bool {
    u => Decide(u, hasTarget, linked, title, remoteOf(u)).Accepted?
  }

  /** The first candidate at index `k` or later that is accepted. */
  function FirstAccepted(urls: seq<string>, accepts: string -> bool, k: nat): (r: Option<nat>)
    requires k <= |urls|
    ensures r.Some? ==> k <= r.value < |urls|
    decreases |urls| - k
  {
    if k == |urls| then None
    else if accepts(urls[k]) then Some(k)
    else FirstAccepted(urls, accepts, k + 1)
  }

  /** The candidate chosen is accepted, none before it is, and there is
      none at all when no candidate is accepted. */
  lemma {:induction false} FirstAcceptedIsFirst(urls: seq<string>, accepts: string -> bool, k: nat)
    requires k <= |urls|
    ensures var r := FirstAccepted(urls, accepts, k);
      (r.Some? ==> accepts(urls[r.value]))
      && forall m :: k <= m < |urls| && (r.None? || m < r.value) ==> !accepts(urls[m])
    decreases |urls| - k
  {
    if k < |urls| && !accepts(urls[k]) {
      FirstAcceptedIsFirst(urls, accepts, k + 1);
    }
  }

  /** `for (const arxivUrl of candidates) { … if (verified) break; }`:
      candidates are tried in order and the first verified one is linked;
      nothing else is. */
  method TryCandidates(urls: seq<string>, hasTarget: bool, scope: LinkScope, mr: string, title: string,
                       remoteOf: string -> Remote)
    returns (chosen: Option<string>)
    modifies scope
    ensures match FirstAccepted(urls, Accepts(hasTarget, old(scope.links) != [], title, remoteOf), 0)
      case None => chosen == None && scope.links == old(scope.links)
      case Some(k) => chosen == Some(urls[k]) && scope.links == old(scope.links) + [urls[k]]
  {
    ghost var linked := scope.links != [];
    var i := 0;
    while i < |urls|
      invariant i <= |urls|
      invariant scope.links == old(scope.links)
      invariant FirstAccepted(urls, Accepts(hasTarget, linked, title, remoteOf), 0)
             == FirstAccepted(urls, Accepts(hasTarget, linked, title, remoteOf), i)
    {
      var verified := VerifyAndInject(urls[i], hasTarget, scope, mr, title, remoteOf(urls[i]));
      if verified {
        return Some(urls[i]);
      }
      i := i + 1;
    }
    return None;
  }


  /** How the processing of one record ends. */
  datatype Outcome =
    | Skipped          // an arXiv link is already there
    | NotEligible      // no usable metadata
    | Aborted          // an exception escaped (the task rejects)
    | NoMatch          // no candidate was verified
    | Linked(url: string)

  /** The task of one search result: skip it when linked, read its
      metadata, search OpenAlex with the title and try the candidates. */
  function ItemOutcome(linked: bool, header: Header, reply: Reply, remoteOf: string -> Remote): Outcome {
    ReadOutcome(linked, SearchItemMetadata(header), reply, remoteOf)
  }

  /** The task of one search result once its metadata is read. The MR
      link is the injection point, so one is always present. */
  function ReadOutcome(linked: bool, read: ItemRead, reply: Reply, remoteOf: string -> Remote): Outcome {
    if linked then Skipped
    else
      match read
      case NoItem => NotEligible
      case ItemThrows => Aborted
      case Item(meta) =>
        if meta.title == "" || meta.mr == "" then NotEligible
        else
          match Searched(meta.title, reply)
          case Threw => Aborted
          case Found(urls) =>
            match FirstAccepted(urls, Accepts(true, false, meta.title, remoteOf), 0)
            case None => NoMatch
            case Some(k) => Linked(urls[k])
  }

  /** The link a scope ends up with after an outcome. */
  function LinksAfter(links: seq<string>, o: Outcome): seq<string> {
    if o.Linked? then links + [o.url] else links
  }

  /** One search-result task. `read` is the metadata the task reads from
      its header. */
  method LinkSearchItem(scope: LinkScope, header: Header, reply: Reply, remoteOf: string -> Remote)
    returns (o: Outcome, ghost read: ItemRead)
    modifies scope
    ensures o == ItemOutcome(old(scope.links) != [], header, reply, remoteOf)
    ensures scope.links == LinksAfter(old(scope.links), o)
    ensures read == SearchItemMetadata(header)
    ensures TaskDone(old(scope.links), scope.links, read, reply, remoteOf, o)
  {
    var itemRead := SearchItemMetadata(header);
    read := itemRead;
    if scope.links != [] { return Skipped, read; }
    match itemRead
    case NoItem => return NotEligible, read;
    case ItemThrows => return Aborted, read;
    case Item(meta) =>
      if meta.title == "" || meta.mr == "" { return NotEligible, read; }
      var search := SearchOpenAlex(meta.title, reply);
      match search
      case Threw => return Aborted, read;
      case Found(urls) =>
        var chosen := TryCandidates(urls, true, scope, meta.mr, meta.title, remoteOf);
        match chosen
        case None => return NoMatch, read;
        case Some(u) => return Linked(u), read;
  }

  /** One task has run on the metadata it read: its outcome, and the
      links its scope ends with. */
  predicate TaskDone(before: seq<string>, after: seq<string>, read: ItemRead, reply: Reply,
                     remoteOf: string -> Remote, o: Outcome) {
    o == ReadOutcome(before != [], read, reply, remoteOf) && after == LinksAfter(before, o)
  }

  /** The search-page branch: one task per result header, each with its
      own scope. The tasks touch disjoint parts of the page, so running
      them one after the other gives each the outcome it has when they
      run interleaved. */
  method LinkSearchPage(scopes: seq<LinkScope>, headers: seq<Header>, replies: seq<Reply>,
                        remoteOf: string -> Remote)
    returns (outcomes: seq<Outcome>, ghost items: seq<ItemRead>)
    requires |headers| == |scopes| && |replies| == |scopes|
    requires forall i, j :: 0 <= i < j < |scopes| ==> scopes[i] != scopes[j]
    modifies set i | 0 <= i < |scopes| :: scopes[i]
    ensures |outcomes| == |scopes| && |items| == |scopes|
    ensures forall i :: 0 <= i < |scopes| ==> items[i] == SearchItemMetadata(headers[i])
    ensures forall i :: 0 <= i < |scopes| ==>
      TaskDone(old(scopes[i].links), scopes[i].links, items[i], replies[i], remoteOf, outcomes[i])
  {
    outcomes, items := [], [];
    for i := 0 to |scopes|
      invariant |outcomes| == i && |items| == i
      invariant forall j :: 0 <= j < i ==> items[j] == SearchItemMetadata(headers[j])
      invariant forall j :: 0 <= j < i ==>
        TaskDone(old(scopes[j].links), scopes[j].links, items[j], replies[j], remoteOf, outcomes[j])
      invariant forall j :: i <= j < |scopes| ==> scopes[j].links == old(scopes[j].links)
    {
      var o, read := LinkSearchItem(scopes[i], headers[i], replies[i], remoteOf);
      outcomes, items := outcomes + [o], items + [read];
    }
  }

  /** The article-page branch after the poll: both fields present and no
      arXiv link in the document, then the same search and candidate
      loop, with the page's own injection point. */
  function ArticleOutcome(snap: nat -> ArticleSnapshot, linked: bool, reply: Reply, remoteOf: string -> Remote): Outcome {
    var meta := Reads(snap)(SettledRead(Reads(snap), 0));
    if !Ready(meta) then NotEligible
    else if linked then Skipped
    else
      match Searched(meta.title, reply)
      case Threw => Aborted
      case Found(urls) =>
        match FirstAccepted(urls, Accepts(meta.hasTarget, false, meta.title, remoteOf), 0)
        case None => NoMatch
        case Some(k) => Linked(urls[k])
  }

  /** What getArticleMetadata returns after k waits, when the element
      look-ups find `snap(k)`. */
  function Reads(snap: nat -> ArticleSnapshot): nat -> ArticleMeta {
    (k: nat) => ArticleMetadata(snap(k))
  }

  /** `doc` is the whole document, the scope of the article-page guard;
      `snap(k)` is what the element look-ups find after k waits. */
  method LinkArticle(snap: nat -> ArticleSnapshot, doc: LinkScope, reply: Reply, remoteOf: string -> Remote)
    returns (o: Outcome)
    modifies doc
    ensures o == ArticleOutcome(snap, old(doc.links) != [], reply, remoteOf)
    ensures doc.links == LinksAfter(old(doc.links), o)
  {
    var meta, waits := PollArticleMetadata(Reads(snap));
    if !Ready(meta) { return NotEligible; }
    if doc.links != [] { return Skipped; }
    var search := SearchOpenAlex(meta.title, reply);
    match search
    case Threw => return Aborted;
    case Found(urls) =>
      var chosen := TryCandidates(urls, meta.hasTarget, doc, meta.mr, meta.title, remoteOf);
      match chosen
      case None => return NoMatch;
      case Some(u) => return Linked(u);
  }

  /** What one pass did: the outcome of every search-result task, the
      outcome on an article page, or nothing on any other page. */
  datatype PassResult =
    | SearchResults(outcomes: seq<Outcome>)
    | ArticleResult(outcome: Outcome)
    | NothingDone

  /** The body of insertArXivLinks: the page URL selects the search pass,
      the article pass or neither. The search pass touches only the result
      regions, the article pass only the document. */
  method RunPass(href: string, scopes: seq<LinkScope>, headers: seq<Header>, replies: seq<Reply>,
                 snap: nat -> ArticleSnapshot, doc: LinkScope, reply: Reply, remoteOf: string -> Remote)
    returns (p: PassResult)
    requires |headers| == |scopes| && |replies| == |scopes|
    requires forall i, j :: 0 <= i < j < |scopes| ==> scopes[i] != scopes[j]
    requires forall i :: 0 <= i < |scopes| ==> scopes[i] != doc
    modifies doc, set i | 0 <= i < |scopes| :: scopes[i]
    ensures KindOf(href).SearchPage? ==>
      p.SearchResults? && |p.outcomes| == |scopes|
      && (forall i :: 0 <= i < |scopes| ==>
            TaskDone(old(scopes[i].links), scopes[i].links, SearchItemMetadata(headers[i]), replies[i], remoteOf, p.outcomes[i]))
      && doc.links == old(doc.links)
    ensures KindOf(href).ArticlePage? ==>
      p == ArticleResult(ArticleOutcome(snap, old(doc.links) != [], reply, remoteOf))
      && doc.links == LinksAfter(old(doc.links), p.outcome)
      && (forall i :: 0 <= i < |scopes| ==> scopes[i].links == old(scopes[i].links))
    ensures KindOf(href).OtherPage? ==>
      p == NothingDone && doc.links == old(doc.links)
      && (forall i :: 0 <= i < |scopes| ==> scopes[i].links == old(scopes[i].links))
  {
    match KindOf(href)
    case SearchPage =>
      var outcomes, items := LinkSearchPage(scopes, headers, replies, remoteOf);
      p := SearchResults(outcomes);
    case ArticlePage =>
      var o := LinkArticle(snap, doc, reply, remoteOf);
      p := ArticleResult(o);
    case OtherPage =>
      p := NothingDone;
  }

  // ---------------------------------------------------------------------
  // Properties

  /** A linked record gets the canonical URL of one of the works OpenAlex
      returned, one that verifyAndInject accepts, and every candidate
      before it was rejected. */
  lemma LinkedIsFirstVerifiedCandidate(read: ItemRead, works: seq<Work>, remoteOf: string -> Remote, u: string)
    requires ReadOutcome(false, read, Results(works), remoteOf) == Linked(u)
    ensures read.Item?
    ensures u in Candidates(works)
    ensures Decide(u, true, false, read.meta.title, remoteOf(u)).Accepted?
    ensures exists k :: (0 <= k < |Candidates(works)| && Candidates(works)[k] == u
      && forall m :: 0 <= m < k ==>
        !Decide(Candidates(works)[m], true, false, read.meta.title, remoteOf(Candidates(works)[m])).Accepted?)
  {
    LinkedItemChoice(read, works, remoteOf, u);
    var urls := Candidates(works);
    var accepts := Accepts(true, false, read.meta.title, remoteOf);
    FirstAcceptedIsFirst(urls, accepts, 0);
    var k := FirstAccepted(urls, accepts, 0).value;
    assert accepts(urls[k]);
    assert forall m :: 0 <= m < k ==> !accepts(urls[m]);
  }

  lemma LinkedItemChoice(read: ItemRead, works: seq<Work>, remoteOf: string -> Remote, u: string)
    requires ReadOutcome(false, read, Results(works), remoteOf) == Linked(u)
    ensures read.Item?
    ensures var r := FirstAccepted(Candidates(works), Accepts(true, false, read.meta.title, remoteOf), 0);
      r.Some? && Candidates(works)[r.value] == u
  {
    if read.Item? {
      assert Searched(read.meta.title, Results(works)) == Found(Candidates(works));
    }
  }

  /** A record already carrying a link is left alone: no request, no
      further link. */
  lemma LinkedRecordSkipped(header: Header, reply: Reply, remoteOf: string -> Remote)
    ensures ItemOutcome(true, header, reply, remoteOf) == Skipped
  {
  }

  /** A failing OpenAlex request ends the task with an exception whenever
      the record has a title and an MR number. */
  lemma OpenAlexFailureThrows(meta: ItemMeta, remoteOf: string -> Remote)
    requires meta.title != "" && meta.mr != ""
    ensures ReadOutcome(false, Item(meta), TransportError, remoteOf) == Aborted
  {
  }

  /** A header whose MR link text holds "MR" without a digit after any
      "MR" ends its task with the TypeError of the MR read. */
  lemma MrReadThrowAborts(header: Header, reply: Reply, remoteOf: string -> Remote)
    requires |header.mrLinkTexts| > 0
    requires Contains(header.mrLinkTexts[0], "MR") && forall i :: !HasMrAt(header.mrLinkTexts[0], i)
    ensures ItemOutcome(false, header, reply, remoteOf) == Aborted
  {
    SearchItemMrThrowsIff(header.mrLinkTexts[0]);
    ContainsIff(header.mrLinkTexts[0], "MR");
  }

  /** Candidate order decides: when two candidates would both be
      accepted, the earlier one is linked. */
  lemma EarlierCandidateWins(urls: seq<string>, accepts: string -> bool, i: nat, j: nat)
    requires i < j < |urls|
    requires accepts(urls[i]) && accepts(urls[j])
    ensures FirstAccepted(urls, accepts, 0).Some?
    ensures FirstAccepted(urls, accepts, 0).value <= i
  {
    FirstAcceptedIsFirst(urls, accepts, 0);
  }

  /** An article page whose fields never both render within the poll is
      never searched. */
  lemma UnreadyArticleNotSearched(snap: nat -> ArticleSnapshot, linked: bool, reply: Reply, remoteOf: string -> Remote)
    requires forall k :: 0 <= k <= MaxRetries ==> !Ready(ArticleMetadata(snap(k)))
    ensures ArticleOutcome(snap, linked, reply, remoteOf) == NotEligible
  {
  }
}
