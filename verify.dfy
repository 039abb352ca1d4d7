/** verifyAndInject: whether one arXiv candidate is accepted for a
    MathSciNet record, and the link it then adds. The two requests it sends
    (the abs page and the mrlookup query) are inputs: what each returns,
    and what the parsed abs page holds. */
module Verify {
  import opened JsStrings
  import opened Titles
  import opened Authors

  /** What a request through the background script yields: a transport
      failure (the message promise rejects) or a body, "" when the
      response carries none. */
  datatype Fetch = Failed | Body(text: string)

  /** The answers of the outside world for one candidate URL: the abs page
      request, the text of its title element and of its author links once
      parsed, and the mrlookup service's answer to a (title, authors)
      query. */
  datatype Remote = Remote(
    abs: Fetch,
    absTitle: Option<string>,
    absAuthors: seq<string>,
    lookup: (string, string) -> Fetch)

  datatype Reason =
    | MissingInput    // no URL or no injection point
    | AlreadyLinked   // an arXiv link is already in scope
    | FetchFailed     // the abs page request failed
    | EmptyPage       // the abs page request returned nothing
    | NoTitle         // the abs page title reads "NOT_FOUND"
    | TitlesDiffer    // the titles are not similar
    | LookupFailed    // the mrlookup request failed

  datatype Verdict = Accepted | Rejected(reason: Reason)

  /** The last space-separated token of a name: free of spaces, ending
      the trimmed name, and either all of it or preceded by a space. */
  predicate IsLastToken(name: string, token: string) {
    var t := Trim(name);
    ' ' !in token && (token == t || EndsWith(t, [' '] + token))
  }

  /** The surnames of the abs page authors, in order. */
  function LastNames(authors: seq<string>): (r: seq<string>)
    ensures |r| == |authors|
    ensures forall k :: 0 <= k < |r| ==> IsLastToken(authors[k], r[k])
  {
    seq(|authors|, k requires 0 <= k < |authors| => SurnameWith(authors[k]))
  }

  function SurnameWith(author: string): (r: string)
    ensures IsLastToken(author, r)
  {
    SurnameShape(author);
    SpacedSuffix(Trim(author), Surname(author));
    Surname(author)
  }

  lemma SpacedSuffix(t: string, n: string)
    requires EndsWith(t, n) && (|n| < |t| ==> t[|t| - |n| - 1] == ' ')
    ensures n == t || EndsWith(t, [' '] + n)
  {
    if |n| < |t| {
      assert t[|t| - |n| - 1..] == [' '] + n;
    }
  }

  /** The mrlookup query the page sends: the arXiv title and at most three
      surnames joined by "and". */
  function LookupQuery(arxivTitle: string, remote: Remote): (string, string) {
    (arxivTitle, LookupAuthors(LastNames(remote.absAuthors)))
  }

  /** The decision of verifyAndInject, rejection reason included: the
      guards first, then the abs page, then the title test, then the
      mrlookup request, which only has to succeed. */
  function Decide(url: string, hasTarget: bool, linked: bool, localTitle: string, remote: Remote): (v: Verdict)
    ensures v.Accepted? ==> url != "" && hasTarget && !linked
    ensures v.Accepted? ==> remote.abs.Body? && remote.abs.text != ""
    ensures v.Accepted? ==> AreTitlesSimilar(AbsTitle(remote.absTitle), localTitle)
  {
    if url == "" || !hasTarget then Rejected(MissingInput)
    else if linked then Rejected(AlreadyLinked)
    else
      match remote.abs
      case Failed => Rejected(FetchFailed)
      case Body(html) =>
        var arxivTitle := AbsTitle(remote.absTitle);
        if html == "" then Rejected(EmptyPage)
        else if arxivTitle == "NOT_FOUND" then Rejected(NoTitle)
        else if !AreTitlesSimilar(arxivTitle, localTitle) then Rejected(TitlesDiffer)
        else if remote.lookup(LookupQuery(arxivTitle, remote).0, LookupQuery(arxivTitle, remote).1).Failed? then
          Rejected(LookupFailed)
        else Accepted
  }

  /** The DOM region whose `.arxiv-link` elements the guard inspects (the
      MR link's parent for a search result, the whole document for an
      article page); `links` lists their targets. */
  class LinkScope {
    var links: seq<string>

    constructor()
      ensures links == []
    {
      links := [];
    }
  }

  /** verifyAndInject, step by step: the mrlookup cross-check is computed
      as the code does, and a link is added when the candidate is
      verified. A transport failure of either request is caught and reads
      as a rejection. */
  method VerifyAndInject(url: string, hasTarget: bool, scope: LinkScope, localMr: string, localTitle: string, remote: Remote)
    returns (verified: bool)
    modifies scope
    ensures verified <==> Decide(url, hasTarget, old(scope.links) != [], localTitle, remote).Accepted?
    ensures scope.links == if verified then old(scope.links) + [url] else old(scope.links)
  {
    if url == "" || !hasTarget || scope.links != [] { return false; }
    if remote.abs.Failed? { return false; }
    var absHtml := remote.abs.text;
    if absHtml == "" { return false; }
    var arxivTitle := AbsTitle(remote.absTitle);
    var lastNames := LastNames(remote.absAuthors);
    if arxivTitle == "NOT_FOUND" { return false; }
    if !AreTitlesSimilar(arxivTitle, localTitle) { return false; }
    var mref := remote.lookup(arxivTitle, LookupAuthors(lastNames));
    if mref.Failed? { return false; }
    var mrStrip := StripMrPrefix(localMr);
    verified := mref.text != "" && Contains(mref.text, mrStrip);
    if !verified && AreTitlesSimilar(arxivTitle, localTitle) {
      verified := true;
    }
    if verified {
      scope.links := scope.links + [url];
    }
  }

  // ---------------------------------------------------------------------
  // Properties of the decision

  /** Acceptance, flattened: URL and injection point present, nothing
      linked yet, a non-empty abs page with a title other than
      "NOT_FOUND" that is similar to the local one, and an mrlookup
      request that does not fail. */
  lemma AcceptedIff(url: string, hasTarget: bool, linked: bool, localTitle: string, remote: Remote)
    ensures Decide(url, hasTarget, linked, localTitle, remote).Accepted? <==>
      url != "" && hasTarget && !linked
      && remote.abs.Body? && remote.abs.text != ""
      && AbsTitle(remote.absTitle) != "NOT_FOUND"
      && AreTitlesSimilar(AbsTitle(remote.absTitle), localTitle)
      && remote.lookup(LookupQuery(AbsTitle(remote.absTitle), remote).0,
                       LookupQuery(AbsTitle(remote.absTitle), remote).1).Body?
  {
  }

  /** The text mrlookup returns never matters: two worlds that differ only
      in the (successful) mrlookup answers decide alike. */
  lemma LookupTextIrrelevant(url: string, hasTarget: bool, linked: bool, localTitle: string, r1: Remote, r2: Remote)
    requires r1.abs == r2.abs && r1.absTitle == r2.absTitle && r1.absAuthors == r2.absAuthors
    requires forall q: (string, string) :: r1.lookup(q.0, q.1).Body? && r2.lookup(q.0, q.1).Body?
    ensures Decide(url, hasTarget, linked, localTitle, r1) == Decide(url, hasTarget, linked, localTitle, r2)
  {
    var q := LookupQuery(AbsTitle(r1.absTitle), r1);
    assert r1.lookup(q.0, q.1).Body? && r2.lookup(q.0, q.1).Body?;
    assert LookupQuery(AbsTitle(r2.absTitle), r2) == q;
  }

  /** An abs page without a title element is never accepted (its title
      reads "NOT_FOUND"), and neither is one whose title text is literally
      that word. */
  lemma MissingTitleRejected(url: string, hasTarget: bool, linked: bool, localTitle: string, remote: Remote)
    requires remote.absTitle.None? || remote.absTitle == Some("NOT_FOUND")
    ensures !Decide(url, hasTarget, linked, localTitle, remote).Accepted?
  {
    if remote.absTitle.Some? {
      NotFoundIsPlain();
      AbsTitleOfPlain(remote.absTitle.value);
    }
  }

  /** A title text without the "Title:" prefix or surrounding white space
      is taken as it is. */
  lemma AbsTitleOfPlain(text: string)
    requires !StartsWith(text, "Title:")
    requires |text| > 0 ==> !IsJsSpace(text[0]) && !IsJsSpace(text[|text| - 1])
    ensures AbsTitle(Some(text)) == text
  {
    TrimNoOp(text);
  }

  lemma NotFoundIsPlain()
    ensures var t := "NOT_FOUND"; !StartsWith(t, "Title:") && !IsJsSpace(t[0]) && !IsJsSpace(t[|t| - 1])
  {
    assert "NOT_FOUND"[..6][0] == 'N';
  }

  /** A candidate whose abs page title normalizes like the local title is
      accepted once the guards pass and both requests succeed. */
  lemma SameTitleAccepted(url: string, localTitle: string, remote: Remote)
    requires url != "" && localTitle != ""
    requires remote.abs.Body? && remote.abs.text != ""
    requires remote.absTitle.Some? && AbsTitle(remote.absTitle) != "NOT_FOUND" && AbsTitle(remote.absTitle) != ""
    requires Norm(AbsTitle(remote.absTitle)) == Norm(localTitle)
    requires forall q: (string, string) :: remote.lookup(q.0, q.1).Body?
    ensures Decide(url, true, false, localTitle, remote) == Accepted
  {
    var t := AbsTitle(remote.absTitle);
    ContainsSelf(Norm(t));
    var q := LookupQuery(t, remote);
    assert remote.lookup(q.0, q.1).Body?;
  }
}
