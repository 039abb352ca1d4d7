/** The arXiv candidate extraction of searchOpenAlex: the parsed OpenAlex
    works are scanned in order, the arXiv URL of each is picked (the
    `ids.arxiv` field first, otherwise the first arXiv location) and put
    into a canonical form. */
module OpenAlex {
  import opened JsStrings

  /** The parts of an OpenAlex work the extension reads; a missing JSON
      field or a null is None. */
  datatype Source = Source(displayName: Option<string>)
  datatype Location = Location(source: Option<Source>, landingPageUrl: Option<string>, pdfUrl: Option<string>)
  datatype Ids = Ids(arxiv: Option<string>)
  datatype Work = Work(ids: Option<Ids>, locations: Option<seq<Location>>)

  /** The value of a possibly missing string where JavaScript only tests
      its truthiness: a missing one reads as "". */
  function TextOf(o: Option<string>): (r: string)
    ensures r != "" <==> Truthy(o)
  {
    match o case None => "" case Some(v) => v
  }

  /** The `find` predicate: the source is named "arXiv", or the landing
      page URL is present and mentions arxiv.org. */
  predicate IsArxivLocation(l: Location) {
    (l.source.Some? && l.source.value.displayName == Some("arXiv"))
    || (Truthy(l.landingPageUrl) && Contains(l.landingPageUrl.value, "arxiv.org"))
  }

  /** `loc.landing_page_url || loc.pdf_url`. */
  function LocationUrl(l: Location): (r: string)
    ensures r == TextOf(l.landingPageUrl) || r == TextOf(l.pdfUrl)
    ensures r != "" <==> Truthy(l.landingPageUrl) || Truthy(l.pdfUrl)
    ensures Truthy(l.landingPageUrl) ==> r == l.landingPageUrl.value
  {
    if Truthy(l.landingPageUrl) then l.landingPageUrl.value else TextOf(l.pdfUrl)
  }

  /** `Array.prototype.find` with IsArxivLocation: the index of the first
      arXiv location. */
  function FindArxivLocation(locs: seq<Location>): (r: Option<nat>)
    ensures r.Some? ==> r.value < |locs| && IsArxivLocation(locs[r.value])
    ensures r.Some? ==> forall k :: 0 <= k < r.value ==> !IsArxivLocation(locs[k])
    ensures r.None? ==> forall k :: 0 <= k < |locs| ==> !IsArxivLocation(locs[k])
    decreases |locs|
  {
    if locs == [] then None
    else if IsArxivLocation(locs[0]) then Some(0)
    else
      match FindArxivLocation(locs[1..])
      case None => None
      case Some(i) => Some(i + 1)
  }

  /** The raw arXiv URL of one work, "" when it has none: a present
      `ids.arxiv` wins; otherwise the URL of the first arXiv location. */
  function ArxivUrlOf(w: Work): string {
    if w.ids.Some? && Truthy(w.ids.value.arxiv) then w.ids.value.arxiv.value
    else if w.locations.Some? then
      match FindArxivLocation(w.locations.value)
      case Some(i) => LocationUrl(w.locations.value[i])
      case None => ""
    else ""
  }

  /** `ids.arxiv` takes precedence over every location. */
  lemma IdsArxivWins(w: Work)
    requires w.ids.Some? && Truthy(w.ids.value.arxiv)
    ensures ArxivUrlOf(w) == w.ids.value.arxiv.value
  {
  }

  /** Without `ids.arxiv`, the URL comes from the first arXiv location,
      whatever follows it. */
  lemma FirstArxivLocationWins(w: Work, i: nat)
    requires !(w.ids.Some? && Truthy(w.ids.value.arxiv))
    requires w.locations.Some? && i < |w.locations.value|
    requires IsArxivLocation(w.locations.value[i])
    requires forall k :: 0 <= k < i ==> !IsArxivLocation(w.locations.value[k])
    ensures ArxivUrlOf(w) == LocationUrl(w.locations.value[i])
  {
    var r := FindArxivLocation(w.locations.value);
    assert r.Some?;
    assert !(r.value < i) && !(i < r.value);
  }

  /** `replace(/^http:/, "https:")`. */
  function UpgradeScheme(u: string): string {
    if StartsWith(u, "http:") then "https:" + u[5..] else u
  }

  /** The canonical form a candidate URL is pushed in: scheme upgraded,
      first "pdf/" turned into "abs/", first ".pdf" deleted. */
  function CanonicalUrl(u: string): string {
    ReplaceFirst(ReplaceFirst(UpgradeScheme(u), "pdf/", "abs/"), ".pdf", "")
  }

  /** The candidates of a list of works, in order: one canonical URL per
      work that has an arXiv URL. */
  function Candidates(works: seq<Work>): (urls: seq<string>)
    ensures |urls| <= |works|
    decreases |works|
  {
    if works == [] then []
    else
      var w := works[|works| - 1];
      Candidates(works[..|works| - 1]) + (if ArxivUrlOf(w) != "" then [CanonicalUrl(ArxivUrlOf(w))] else [])
  }

  /** What the OpenAlex request yields: a transport failure (the message
      promise rejects), a falsy body, a body that does not parse or whose
      `results` cannot be iterated, or the parsed works. */
  datatype Reply = TransportError | NoBody | Unusable | Results(works: seq<Work>)

  /** Threw: the rejection escapes searchOpenAlex, since the request is
      awaited outside its try block. */
  datatype Search = Threw | Found(urls: seq<string>)

  /** What searchOpenAlex settles to for a title and the answer to its
      request. */
  function Searched(title: string, reply: Reply): Search {
    if title == "" then Found([])
    else
      match reply
      case TransportError => Threw
      case Results(works) => Found(Candidates(works))
      case _ => Found([])
  }

  /** searchOpenAlex on an already answered request; an empty title
      returns no candidates without asking. */
  method SearchOpenAlex(title: string, reply: Reply) returns (r: Search)
    ensures r == Searched(title, reply)
    ensures title == "" ==> r == Found([])
    ensures title != "" && reply.TransportError? ==> r == Threw
    ensures title != "" && (reply.NoBody? || reply.Unusable?) ==> r == Found([])
    ensures title != "" && reply.Results? ==> r == Found(Candidates(reply.works))
  {
    if title == "" { return Found([]); }
    match reply
    case TransportError => return Threw;
    case NoBody => return Found([]);
    case Unusable => return Found([]);
    case Results(works) =>
      var candidates: seq<string> := [];
      for i := 0 to |works|
        invariant candidates == Candidates(works[..i])
      {
        var arxivUrl := ArxivUrlOf(works[i]);
        if arxivUrl != "" {
          arxivUrl := UpgradeScheme(arxivUrl);
          arxivUrl := ReplaceFirst(ReplaceFirst(arxivUrl, "pdf/", "abs/"), ".pdf", "");
          candidates := candidates + [arxivUrl];
        }
        assert works[..i + 1][..i] == works[..i];
      }
      assert works[..|works|] == works;
      return Found(candidates);
  }

  // ---------------------------------------------------------------------
  // The candidate list

  predicate HasUrl(w: Work) { ArxivUrlOf(w) != "" }

  /** The indices of the works that yield a candidate, in increasing order. */
  function KeptIndices(works: seq<Work>): (idx: seq<nat>)
    ensures forall k :: 0 <= k < |idx| ==> idx[k] < |works| && HasUrl(works[idx[k]])
    ensures forall k, l :: 0 <= k < l < |idx| ==> idx[k] < idx[l]
    decreases |works|
  {
    if works == [] then []
    else
      var n := |works| - 1;
      var front := KeptIndices(works[..n]);
      assert forall k :: 0 <= k < |front| ==> works[..n][front[k]] == works[front[k]];
      front + (if HasUrl(works[n]) then [n] else [])
  }

  /** No work with a URL is left out. */
  lemma {:induction false} KeptIndicesComplete(works: seq<Work>, i: nat)
    requires i < |works| && HasUrl(works[i])
    ensures i in KeptIndices(works)
    decreases |works|
  {
    var n := |works| - 1;
    if i < n {
      KeptIndicesComplete(works[..n], i);
    }
  }

  /** The candidate list is exactly the canonical URLs of the works that
      have one, in the order of the works. */
  lemma {:induction false} CandidatesAreKeptWorks(works: seq<Work>)
    ensures |Candidates(works)| == |KeptIndices(works)|
    ensures forall k :: 0 <= k < |Candidates(works)| ==>
      Candidates(works)[k] == CanonicalUrl(ArxivUrlOf(works[KeptIndices(works)[k]]))
    decreases |works|
  {
    if works != [] {
      var n := |works| - 1;
      CandidatesAreKeptWorks(works[..n]);
      var front := KeptIndices(works[..n]);
      forall k | 0 <= k < |front| ensures works[..n][front[k]] == works[front[k]] {
        assert front[k] < n;
      }
    }
  }

  /** A URL is a candidate exactly when some work yields it. */
  lemma CandidateIff(works: seq<Work>, u: string)
    ensures u in Candidates(works) <==>
      exists i :: 0 <= i < |works| && HasUrl(works[i]) && u == CanonicalUrl(ArxivUrlOf(works[i]))
  {
    CandidatesAreKeptWorks(works);
    var c := Candidates(works);
    var idx := KeptIndices(works);
    if u in c {
      var k :| 0 <= k < |c| && c[k] == u;
      assert HasUrl(works[idx[k]]);
    }
    if exists i :: 0 <= i < |works| && HasUrl(works[i]) && u == CanonicalUrl(ArxivUrlOf(works[i])) {
      var i :| 0 <= i < |works| && HasUrl(works[i]) && u == CanonicalUrl(ArxivUrlOf(works[i]));
      KeptIndicesComplete(works, i);
      var k :| 0 <= k < |idx| && idx[k] == i;
      assert c[k] == u;
    }
  }

  /** Works that yield no URL contribute nothing: a list without any gives
      no candidate. */
  lemma {:induction false} NoUrlNoCandidates(works: seq<Work>)
    requires forall i :: 0 <= i < |works| ==> !HasUrl(works[i])
    ensures Candidates(works) == []
    decreases |works|
  {
    if works != [] {
      NoUrlNoCandidates(works[..|works| - 1]);
    }
  }

  /** Appending works appends their candidates. */
  lemma {:induction false} CandidatesAppend(a: seq<Work>, b: seq<Work>)
    ensures Candidates(a + b) == Candidates(a) + Candidates(b)
    decreases |b|
  {
    if b == [] {
      assert a + b == a;
    } else {
      var n := |b| - 1;
      assert (a + b)[..|a + b| - 1] == a + b[..n];
      assert (a + b)[|a + b| - 1] == b[n];
      CandidatesAppend(a, b[..n]);
    }
  }

  // ---------------------------------------------------------------------
  // The canonical form

  /** A first-occurrence replace passes over a prefix that does not hold
      the pattern's first character. */
  lemma {:induction false} ReplaceFirstPastPrefix(a: string, b: string, pat: string, rep: string)
    requires |pat| > 0 && pat[0] !in a
    ensures ReplaceFirst(a + b, pat, rep) == a + ReplaceFirst(b, pat, rep)
    decreases |a|
  {
    var s := a + b;
    if a == [] {
      assert s == b;
    } else if |s| >= |pat| {
      assert s[0..|pat|][0] == a[0];
      ReplaceFirstStep(s, pat, rep);
      assert s[1..] == a[1..] + b;
      ReplaceFirstPastPrefix(a[1..], b, pat, rep);
      assert a == [a[0]] + a[1..];
    } else {
      assert |b| < |pat|;
    }
  }

  /** The same past a prefix none of whose characters is followed by the
      pattern's second character. */
  lemma {:induction false} ReplaceFirstPastSecond(a: string, b: string, pat: string, rep: string)
    requires |pat| >= 2 && pat[1] !in a
    requires |b| > 0 ==> b[0] != pat[1]
    ensures ReplaceFirst(a + b, pat, rep) == a + ReplaceFirst(b, pat, rep)
    decreases |a|
  {
    var s := a + b;
    if a == [] {
      assert s == b;
    } else if |s| >= |pat| {
      if |a| > 1 {
        assert s[0..|pat|][1] == a[1];
      } else {
        assert s[0..|pat|][1] == b[0];
      }
      ReplaceFirstStep(s, pat, rep);
      assert s[1..] == a[1..] + b;
      ReplaceFirstPastSecond(a[1..], b, pat, rep);
      assert a == [a[0]] + a[1..];
    } else {
      assert |b| < |pat|;
    }
  }

  /** The same past one character that cannot start the pattern. */
  lemma ReplaceFirstPastChar(c: char, b: string, pat: string, rep: string)
    requires |pat| >= 2 && |b| > 0 && b[0] != pat[1]
    ensures ReplaceFirst([c] + b, pat, rep) == [c] + ReplaceFirst(b, pat, rep)
  {
    var s := [c] + b;
    if |s| >= |pat| {
      assert s[..|pat|][1] == b[0];
      assert s[1..] == b;
    }
  }

  /** What the two string replacements do to the part after the scheme. */
  function PathForm(rest: string): string {
    ReplaceFirst(ReplaceFirst(rest, "pdf/", "abs/"), ".pdf", "")
  }

  /** Both replacements pass over a leading "https:". */
  lemma PastHttps(rest: string)
    ensures UpgradeScheme("https:" + rest) == "https:" + rest
    ensures CanonicalUrl("https:" + rest) == "https:" + PathForm(rest)
  {
    var u := "https:" + rest;
    assert u[..5] != "http:" by { assert u[..5][4] == 's'; }
    PastHttpsPdf(rest);
    PastHttpsDot(ReplaceFirst(rest, "pdf/", "abs/"));
  }

  lemma PastHttpsPdf(rest: string)
    ensures ReplaceFirst("https:" + rest, "pdf/", "abs/") == "https:" + ReplaceFirst(rest, "pdf/", "abs/")
  {
    var pdf := "pdf/";
    var tail := "s:" + rest;
    assert pdf[0] == 'p' && pdf[1] == 'd' && pdf[0] !in "htt" && pdf[0] !in "s:";
    assert "https:" + rest == "htt" + ([ 'p' ] + tail);
    ReplaceFirstPastPrefix("htt", [ 'p' ] + tail, pdf, "abs/");
    assert tail[0] != pdf[1];
    ReplaceFirstPastChar('p', tail, pdf, "abs/");
    ReplaceFirstPastPrefix("s:", rest, pdf, "abs/");
  }

  lemma PastHttpsDot(mid: string)
    ensures ReplaceFirst("https:" + mid, ".pdf", "") == "https:" + ReplaceFirst(mid, ".pdf", "")
  {
    var dot := ".pdf";
    assert dot[0] !in "https:";
    ReplaceFirstPastPrefix("https:", mid, dot, "");
  }

  /** An http or https URL comes out as https, with the two replacements
      applied to what follows the scheme; the two schemes converge. */
  lemma CanonicalSchemes(rest: string)
    ensures CanonicalUrl("http:" + rest) == "https:" + PathForm(rest)
    ensures CanonicalUrl("https:" + rest) == "https:" + PathForm(rest)
  {
    var u := "http:" + rest;
    assert u[..5] == "http:" && u[5..] == rest;
    assert UpgradeScheme(u) == "https:" + rest;
    PastHttps(rest);
  }

  /** For an arXiv identifier without a "p" (every new-style identifier
      such as 2101.01234v2, and old-style ones from archives such as math
      or cs; not hep-th, astro-ph and the other archives whose names hold
      a "p"), the abs page URL over http or https and the PDF URL all
      become the one https abs page URL. */
  lemma ArxivFormsAgree(id: string)
    requires 'p' !in id
    ensures CanonicalUrl("https://arxiv.org/abs/" + id) == "https://arxiv.org/abs/" + id
    ensures CanonicalUrl("http://arxiv.org/abs/" + id) == "https://arxiv.org/abs/" + id
    ensures CanonicalUrl("https://arxiv.org/pdf/" + id + ".pdf") == "https://arxiv.org/abs/" + id
  {
    AbsFormCanonical(id);
    PdfFormCanonical(id);
  }

  lemma AbsFormCanonical(id: string)
    requires 'p' !in id
    ensures CanonicalUrl("https://arxiv.org/abs/" + id) == "https://arxiv.org/abs/" + id
    ensures CanonicalUrl("http://arxiv.org/abs/" + id) == "https://arxiv.org/abs/" + id
  {
    SchemeSplits(id);
    CanonicalSchemes(AbsPrefix + id);
    AbsPathForm(id);
  }

  lemma PdfFormCanonical(id: string)
    requires 'p' !in id
    ensures CanonicalUrl("https://arxiv.org/pdf/" + id + ".pdf") == "https://arxiv.org/abs/" + id
  {
    SchemeSplits(id);
    PastHttps("//arxiv.org/pdf/" + id + ".pdf");
    PdfPathForm(id);
  }

  /** The URLs above are a scheme and a scheme-relative part. */
  lemma SchemeSplits(id: string)
    ensures "https://arxiv.org/pdf/" + id + ".pdf" == "https:" + ("//arxiv.org/pdf/" + id + ".pdf")
    ensures "https://arxiv.org/abs/" + id == "https:" + (AbsPrefix + id)
    ensures "http://arxiv.org/abs/" + id == "http:" + (AbsPrefix + id)
  {
    SchemeLiterals();
    SchemeSplit("https:", "//arxiv.org/pdf/", id + ".pdf");
    SchemeSplit("//arxiv.org/pdf/", id, ".pdf");
    SchemeSplit("https:", "//arxiv.org/pdf/", id);
    SchemeSplit("https:", AbsPrefix, id);
    SchemeSplit("http:", AbsPrefix, id);
  }

  lemma SchemeLiterals()
    ensures "https://arxiv.org/pdf/" == "https:" + "//arxiv.org/pdf/"
    ensures "https://arxiv.org/abs/" == "https:" + AbsPrefix
    ensures "http://arxiv.org/abs/" == "http:" + AbsPrefix
  {
  }

  lemma SchemeSplit(a: string, b: string, c: string)
    ensures a + b + c == a + (b + c)
  {
  }

  /** A string without the pattern's first character is left alone. */
  lemma ReplaceFirstWithoutFirstChar(s: string, pat: string, rep: string)
    requires |pat| > 0 && pat[0] !in s
    ensures ReplaceFirst(s, pat, rep) == s
  {
    ReplaceFirstPastPrefix(s, "", pat, rep);
    assert s + "" == s;
  }

  const AbsPrefix: string := "//arxiv.org/abs/"

  /** Past the host and "/abs/", neither pattern can start before `x`. */
  lemma PastAbsPrefixPdf(x: string)
    ensures ReplaceFirst(AbsPrefix + x, "pdf/", "abs/") == AbsPrefix + ReplaceFirst(x, "pdf/", "abs/")
  {
    var pdf := "pdf/";
    assert pdf[0] == 'p' && pdf[0] !in AbsPrefix;
    ReplaceFirstPastPrefix(AbsPrefix, x, pdf, "abs/");
  }

  lemma PastAbsPrefixDot(x: string)
    requires |x| > 0 ==> x[0] != 'p'
    ensures ReplaceFirst(AbsPrefix + x, ".pdf", "") == AbsPrefix + ReplaceFirst(x, ".pdf", "")
  {
    NoPInAbsPrefix();
    DotPdfChars();
    ReplaceFirstPastSecond(AbsPrefix, x, ".pdf", "");
  }

  lemma NoPInAbsPrefix()
    ensures 'p' !in AbsPrefix
  {
  }

  lemma DotPdfChars()
    ensures |".pdf"| == 4 && ".pdf"[1] == 'p'
  {
  }

  lemma AbsPathForm(id: string)
    requires 'p' !in id
    ensures PathForm(AbsPrefix + id) == AbsPrefix + id
  {
    PastAbsPrefixPdf(id);
    PastAbsPrefixDot(id);
    ReplaceFirstWithoutFirstChar(id, "pdf/", "abs/");
    ReplaceFirstPastSecond(id, "", ".pdf", "");
    assert id + "" == id;
  }

  lemma PdfPathForm(id: string)
    requires 'p' !in id
    ensures PathForm("//arxiv.org/pdf/" + id + ".pdf") == AbsPrefix + id
  {
    PdfSegmentReplaced(id);
    PastAbsPrefixDot(id + ".pdf");
    DotPdfRemoved(id);
  }

  /** "pdf/" is first found at the path segment. */
  lemma PdfSegmentReplaced(id: string)
    ensures ReplaceFirst("//arxiv.org/pdf/" + id + ".pdf", "pdf/", "abs/") == AbsPrefix + (id + ".pdf")
  {
    var host := "//arxiv.org/";
    var tail := "pdf/" + (id + ".pdf");
    HostLiterals();
    assert "//arxiv.org/pdf/" + id + ".pdf" == host + tail;
    ReplaceFirstPastPrefix(host, tail, "pdf/", "abs/");
    assert tail[..4] == "pdf/" && tail[4..] == id + ".pdf";
    assert host + ("abs/" + (id + ".pdf")) == AbsPrefix + (id + ".pdf");
  }

  lemma HostLiterals()
    ensures "//arxiv.org/pdf/" == "//arxiv.org/" + "pdf/"
    ensures AbsPrefix == "//arxiv.org/" + "abs/"
    ensures 'p' !in "//arxiv.org/" && "pdf/"[0] == 'p'
  {
  }

  /** ".pdf" is first found at the end of an identifier without "p". */
  lemma DotPdfRemoved(id: string)
    requires 'p' !in id
    ensures ReplaceFirst(id + ".pdf", ".pdf", "") == id
  {
    ReplaceFirstPastSecond(id, ".pdf", ".pdf", "");
    assert ".pdf"[..4] == ".pdf";
    assert id + "" == id;
  }
}
