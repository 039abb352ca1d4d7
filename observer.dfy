/** When the content script starts a new pass (calls main): the
    MutationObserver callback and the one-second URL poll, over the
    module-level `lastUrl` and `lastPageSignature`, and the search-page
    signature that detects pagination. */
module Observer {
  import opened JsStrings
  import opened Passes

  predicate IsM(c: char) { c == 'M' || c == 'm' }
  predicate IsR(c: char) { c == 'R' || c == 'r' }

  /** `mr=` (letters in either case) starts at index `i`. */
  predicate ParamKeyAt(s: string, i: int) {
    0 <= i && i + 3 <= |s| && IsM(s[i]) && IsR(s[i + 1]) && s[i + 2] == '='
  }

  /** The longest prefix without `&`: what `[^&]+` takes once it starts. */
  function NonAmpRun(s: string): (r: string)
    ensures |r| <= |s| && r == s[..|r|]
    ensures '&' !in r
    ensures |r| < |s| ==> s[|r|] == '&'
    decreases |s|
  {
    if |s| > 0 && s[0] != '&' then [s[0]] + NonAmpRun(s[1..]) else ""
  }

  /** The capture of `href.match(/mr=([^&]+)/i)`: after the leftmost `mr=`
      that is followed by something other than `&`. */
  function MrParam(s: string): (r: Option<string>)
    ensures r.Some? ==> r.value != "" && '&' !in r.value
    decreases |s|
  {
    if |s| < 4 then None
    else if ParamKeyAt(s, 0) && s[3] != '&' then Some(NonAmpRun(s[3..]))
    else MrParam(s[1..])
  }

  /** `text.match(/MR?\d+/i)`: at the leftmost `M` followed by a digit, or
      by an `R` and a digit, that prefix and the digit run after it. */
  function LooseMr(s: string): (r: Option<string>)
    ensures r.Some? ==> |r.value| >= 2 && IsM(r.value[0]) && IsAsciiDigit(r.value[|r.value| - 1])
    decreases |s|
  {
    if |s| < 2 then None
    else if IsM(s[0]) && |s| >= 3 && IsR(s[1]) && IsAsciiDigit(s[2]) then
      var d := DigitRun(s[2..]);
      Some(s[..2] + d)
    else if IsM(s[0]) && IsAsciiDigit(s[1]) then
      var d := DigitRun(s[1..]);
      Some([s[0]] + d)
    else LooseMr(s[1..])
  }

  /** An MR link: its `href` attribute (absent: None) and its text. */
  datatype MrLink = MrLink(href: Option<string>, text: string)

  /** The identity of one MR link in the signature: the `mr=` value of
      its href, else the MR number in its trimmed text, else that text. */
  function LinkId(link: MrLink): string {
    var href := match link.href case None => "" case Some(h) => h;
    match MrParam(href)
    case Some(v) => v
    case None =>
      var t := Trim(link.text);
      match LooseMr(t) case Some(m) => m case None => t
  }

  function Ids(links: seq<MrLink>): seq<string> {
    seq(|links|, k requires 0 <= k < |links| => LinkId(links[k]))
  }

  /** getSearchPageSignature: "" without MR links, else the ids joined by
      `|`. */
  function Signature(links: seq<MrLink>): string {
    if |links| == 0 then "" else Join(Ids(links), "|")
  }

  /** `lastUrl` and `lastPageSignature`. */
  datatype Watch = Watch(lastUrl: string, lastSignature: string)

  /** The state after a callback, and whether it called main. */
  datatype Reaction = Reaction(watch: Watch, runs: bool)

  /** One MutationObserver callback, given the current URL, the MR links
      on the page, whether an arXiv link exists, and whether a pass is
      running. */
  function OnMutation(w: Watch, href: string, links: seq<MrLink>, hasArxivLink: bool, passActive: bool): Reaction {
    if href != w.lastUrl then Reaction(Watch(href, ""), true)
    else if IsSearchUrl(href) then
      var sig := Signature(links);
      if sig != "" && sig != w.lastSignature then Reaction(Watch(w.lastUrl, sig), true)
      else Reaction(w, false)
    else if !hasArxivLink then Reaction(w, !passActive)
    else Reaction(w, false)
  }

  /** One tick of the one-second URL poll. */
  function OnTick(w: Watch, href: string): Reaction {
    if href != w.lastUrl then Reaction(Watch(href, ""), true) else Reaction(w, false)
  }

  // ---------------------------------------------------------------------
  // The signature

  lemma JoinOfTwoOrMore(parts: seq<string>, sep: string)
    requires |parts| >= 2
    ensures |Join(parts, sep)| >= |sep|
  {
  }

  /** The signature is empty exactly when there are no MR links, or a
      single one whose id is empty. */
  lemma SignatureEmptyIff(links: seq<MrLink>)
    ensures Signature(links) == "" <==> links == [] || (|links| == 1 && LinkId(links[0]) == "")
  {
    if |links| >= 2 { JoinOfTwoOrMore(Ids(links), "|"); }
  }

  /** When no id holds `|`, the signature can be read back into the ids. */
  lemma SignatureDeterminesIds(links: seq<MrLink>)
    requires links != []
    requires forall k :: 0 <= k < |links| ==> '|' !in LinkId(links[k])
    ensures Split(Signature(links), '|') == Ids(links)
  {
    SplitJoin(Ids(links), '|');
  }

  /** Result pages listing different records have different signatures,
      so a page change is noticed even when the result count stays. */
  lemma DistinctIdsDistinctSignatures(l1: seq<MrLink>, l2: seq<MrLink>)
    requires l1 != [] && l2 != []
    requires forall k :: 0 <= k < |l1| ==> '|' !in LinkId(l1[k])
    requires forall k :: 0 <= k < |l2| ==> '|' !in LinkId(l2[k])
    requires Ids(l1) != Ids(l2)
    ensures Signature(l1) != Signature(l2)
  {
    SignatureDeterminesIds(l1);
    SignatureDeterminesIds(l2);
  }

  lemma {:induction false} NonAmpRunOf(v: string, rest: string)
    requires '&' !in v
    requires rest == "" || rest[0] == '&'
    ensures NonAmpRun(v + rest) == v
    decreases |v|
  {
    if v == [] {
      assert v + rest == rest;
    } else {
      assert (v + rest)[0] == v[0] && (v + rest)[1..] == v[1..] + rest;
      NonAmpRunOf(v[1..], rest);
      assert [v[0]] + v[1..] == v;
    }
  }

  /** An href whose path and query holds no `=` before `mr=v` (v free of
      `&`, followed by the end or by `&`) yields v. */
  lemma {:induction false} MrParamOfQuery(p: string, v: string, rest: string)
    requires '=' !in p
    requires v != "" && '&' !in v
    requires rest == "" || rest[0] == '&'
    ensures MrParam(p + "mr=" + v + rest) == Some(v)
    decreases |p|
  {
    var s := p + "mr=" + v + rest;
    if p == [] {
      assert s == "mr=" + (v + rest);
      assert s[3..] == v + rest;
      NonAmpRunOf(v, rest);
    } else {
      if |p| >= 3 {
        assert s[2] == p[2];
      } else if |p| == 2 {
        assert s[2] == 'm';
      } else {
        assert s[1] == 'm';
      }
      assert s[1..] == p[1..] + "mr=" + v + rest;
      MrParamOfQuery(p[1..], v, rest);
    }
  }

  /** The usual MathSciNet article href: the id is the MR number in the
      query. */
  lemma LinkIdOfArticleHref(v: string, rest: string, text: string)
    requires v != "" && '&' !in v
    requires rest == "" || rest[0] == '&'
    ensures LinkId(MrLink(Some("/mathscinet/article?mr=" + v + rest), text)) == v
  {
    var p := "/mathscinet/article?";
    assert '=' !in p;
    assert "/mathscinet/article?mr=" + v + rest == p + "mr=" + v + rest;
    MrParamOfQuery(p, v, rest);
  }

  /** A link without `mr=` in its href falls back to an "MR" number
      opening its text. */
  lemma LooseMrOfNumber(d: string, tail: string)
    requires d != "" && AllDigits(d)
    requires tail == "" || !IsAsciiDigit(tail[0])
    ensures LooseMr("MR" + d + tail) == Some("MR" + d)
  {
    var s := "MR" + d + tail;
    DigitRunOf(d, tail);
    MrPrefixSplit(s, d + tail);
    assert IsAsciiDigit(s[2]) by { assert s[2] == (d + tail)[0] == d[0]; }
  }

  lemma MrPrefixSplit(s: string, rest: string)
    requires s == "MR" + rest
    ensures |s| >= 2 && s[..2] == "MR" && s[2..] == rest && IsM(s[0]) && IsR(s[1])
    ensures |rest| > 0 ==> s[2] == rest[0]
  {
  }

  lemma {:induction false} DigitRunOf(d: string, tail: string)
    requires AllDigits(d)
    requires tail == "" || !IsAsciiDigit(tail[0])
    ensures DigitRun(d + tail) == d
    decreases |d|
  {
    if d == [] {
      assert d + tail == tail;
    } else {
      assert (d + tail)[0] == d[0] && (d + tail)[1..] == d[1..] + tail;
      DigitRunOf(d[1..], tail);
      assert [d[0]] + d[1..] == d;
    }
  }

  // ---------------------------------------------------------------------
  // The trigger rule

  /** A changed URL always runs and forgets the signature, whichever
      callback notices it first. */
  lemma NavigationRuns(w: Watch, href: string, links: seq<MrLink>, hasArxivLink: bool, passActive: bool)
    requires href != w.lastUrl
    ensures OnMutation(w, href, links, hasArxivLink, passActive) == Reaction(Watch(href, ""), true)
    ensures OnTick(w, href) == Reaction(Watch(href, ""), true)
  {
  }

  /** On a search page whose URL is already known, a callback runs exactly
      when the signature is non-empty and differs from the recorded one,
      and it records the new one. */
  lemma SearchPageRunsIff(w: Watch, links: seq<MrLink>, hasArxivLink: bool, passActive: bool)
    requires IsSearchUrl(w.lastUrl)
    ensures var r := OnMutation(w, w.lastUrl, links, hasArxivLink, passActive);
      (r.runs <==> Signature(links) != "" && Signature(links) != w.lastSignature)
      && r.watch.lastUrl == w.lastUrl
      && (r.runs ==> r.watch.lastSignature == Signature(links))
      && (!r.runs ==> r.watch == w)
  {
  }

  /** A search page that stops changing goes quiet: the same links a
      second time do not run again. */
  lemma StableSearchPageQuiet(w: Watch, links: seq<MrLink>, h1: bool, a1: bool, h2: bool, a2: bool)
    requires IsSearchUrl(w.lastUrl)
    ensures var r := OnMutation(w, w.lastUrl, links, h1, a1);
      !OnMutation(r.watch, w.lastUrl, links, h2, a2).runs
  {
  }

  /** Navigating to a results page runs twice: the callback that notices
      the new URL resets the signature, so the next callback sees a
      "changed" signature for the same links. The one after is quiet. */
  lemma NavigationToResultsRunsTwice(w: Watch, href: string, links: seq<MrLink>, h: bool, a: bool)
    requires href != w.lastUrl && IsSearchUrl(href) && Signature(links) != ""
    ensures var r1 := OnMutation(w, href, links, h, a);
      var r2 := OnMutation(r1.watch, href, links, h, a);
      var r3 := OnMutation(r2.watch, href, links, h, a);
      r1.runs && r2.runs && !r3.runs
  {
  }

  /** A page of other results is noticed on the first callback after it
      renders. */
  lemma PaginationNoticed(w: Watch, l1: seq<MrLink>, l2: seq<MrLink>, h: bool, a: bool)
    requires IsSearchUrl(w.lastUrl) && w.lastSignature == Signature(l1)
    requires l1 != [] && l2 != []
    requires forall k :: 0 <= k < |l1| ==> '|' !in LinkId(l1[k])
    requires forall k :: 0 <= k < |l2| ==> '|' !in LinkId(l2[k]) && LinkId(l2[k]) != ""
    requires Ids(l1) != Ids(l2)
    ensures OnMutation(w, w.lastUrl, l2, h, a).runs
  {
    DistinctIdsDistinctSignatures(l1, l2);
    SignatureEmptyIff(l2);
  }

  /** Elsewhere, with the URL unchanged, a callback runs exactly when the
      page has no arXiv link and no pass is running; the state is kept. */
  lemma OtherPageRunsIff(w: Watch, links: seq<MrLink>, hasArxivLink: bool, passActive: bool)
    requires !IsSearchUrl(w.lastUrl)
    ensures var r := OnMutation(w, w.lastUrl, links, hasArxivLink, passActive);
      (r.runs <==> !hasArxivLink && !passActive) && r.watch == w
  {
  }

  /** Once one callback has noticed a navigation, the poll does not
      notice it again. */
  lemma NavigationNoticedOnce(w: Watch, href: string, links: seq<MrLink>, h: bool, a: bool)
    requires href != w.lastUrl
    ensures !OnTick(OnMutation(w, href, links, h, a).watch, href).runs
    ensures !OnTick(OnTick(w, href).watch, href).runs
  {
  }
}
