/** The string post-processing of getSearchItemMetadata and
    getArticleMetadata (the element look-ups themselves are inputs), the MR
    number patterns, and the bounded poll for a late-rendered article page. */
module Metadata {
  import opened JsStrings
  import Titles
  import Authors

  /** An MR number of the canonical shape: "MR" and at least one digit. */
  predicate IsMrNumber(s: string) {
    |s| > 2 && s[..2] == "MR" && AllDigits(s[2..])
  }

  /** `/MR\d+/` can start matching at index `i`. */
  predicate HasMrAt(s: string, i: int) {
    0 <= i && i + 3 <= |s| && s[i] == 'M' && s[i + 1] == 'R' && IsAsciiDigit(s[i + 2])
  }

  /** `s.match(/MR\d+/)`: the leftmost "MR" followed by a digit, with the
      whole digit run after it. */
  function MatchMr(s: string): (r: Option<string>)
    ensures r.Some? ==> IsMrNumber(r.value)
    decreases |s|
  {
    if |s| < 3 then None
    else if s[0] == 'M' && s[1] == 'R' && IsAsciiDigit(s[2]) then
      var d := DigitRun(s[2..]);
      assert ("MR" + d)[2..] == d;
      Some("MR" + d)
    else MatchMr(s[1..])
  }

  lemma HasMrAtShift(s: string, i: nat)
    requires |s| > 0
    ensures HasMrAt(s, i + 1) <==> HasMrAt(s[1..], i)
  {
  }

  /** The match starts at the leftmost index where the pattern can start. */
  lemma {:induction false} MatchMrIsLeftmost(s: string, i: nat)
    requires HasMrAt(s, i)
    requires forall k :: 0 <= k < i ==> !HasMrAt(s, k)
    ensures MatchMr(s) == Some("MR" + DigitRun(s[i + 2..]))
    decreases i
  {
    if i > 0 {
      assert !HasMrAt(s, 0);
      HasMrAtShift(s, i - 1);
      forall k | 0 <= k < i - 1 ensures !HasMrAt(s[1..], k) { HasMrAtShift(s, k); }
      MatchMrIsLeftmost(s[1..], i - 1);
      assert s[1..][i - 1 + 2..] == s[i + 2..];
    }
  }

  /** There is no match exactly when the pattern can start nowhere. */
  lemma {:induction false} MatchMrNone(s: string)
    ensures MatchMr(s).None? <==> forall i :: !HasMrAt(s, i)
    decreases |s|
  {
    if |s| >= 3 && !HasMrAt(s, 0) {
      MatchMrNone(s[1..]);
      forall i | HasMrAt(s, i) ensures HasMrAt(s[1..], i - 1) {
        HasMrAtShift(s, i - 1);
      }
      forall i | HasMrAt(s[1..], i) ensures HasMrAt(s, i + 1) {
        HasMrAtShift(s, i);
      }
    }
  }

  /** The local MR number of a search result (the MR link's text): the
      `/MR\d+/` match when the text contains "MR", otherwise "MR" and the
      trimmed text. None stands for the TypeError thrown when the text
      contains "MR" but no digit follows any "MR" (`null[0]`). */
  function SearchItemMr(text: string): (r: Option<string>)
    ensures r.Some? ==> StartsWith(r.value, "MR")
  {
    if Contains(text, "MR") then MatchMr(text) else Some("MR" + Trim(text))
  }

  /** The search-result MR number throws exactly when "MR" occurs but is
      never followed by a digit. */
  lemma SearchItemMrThrowsIff(text: string)
    ensures SearchItemMr(text).None? <==>
      (exists i :: OccursAt(text, "MR", i)) && (forall i :: !HasMrAt(text, i))
  {
    ContainsIff(text, "MR");
    MatchMrNone(text);
  }

  /** When the text holds "MR" followed by a digit, a search result's MR
      number is the leftmost `/MR\d+/` match with its whole digit run. */
  lemma SearchItemMrIsLeftmostMatch(text: string, i: nat)
    requires HasMrAt(text, i)
    requires forall k :: 0 <= k < i ==> !HasMrAt(text, k)
    ensures SearchItemMr(text) == Some("MR" + DigitRun(text[i + 2..]))
  {
    ContainsIff(text, "MR");
    assert OccursAt(text, "MR", i);
    MatchMrIsLeftmost(text, i);
  }

  /** Without "MR" in the text, the MR number is "MR" before the trimmed
      text. */
  lemma SearchItemMrWithoutMr(text: string)
    requires !Contains(text, "MR")
    ensures SearchItemMr(text) == Some("MR" + Trim(text))
  {
  }

  /** The local MR number of an article page, from the MR element's text:
      the `/MR\d+/` match, else "MR" before a text of exactly seven digits
      (`/^\d{7}$/`), else "" (also when there is no element). */
  function ArticleMr(element: Option<string>): (r: string)
    ensures r == "" || IsMrNumber(r)
  {
    match element
    case None => ""
    case Some(text) =>
      match MatchMr(text)
      case Some(m) => m
      case None =>
        if |text| == 7 && AllDigits(text) then
          TrimNoOp(text);
          assert ("MR" + text)[2..] == text;
          "MR" + Trim(text)
        else ""
  }

  /** The value of an article page's MR number: "" without an element, the
      `/MR\d+/` match when there is one, "MR" before a text of exactly seven
      digits, and "" otherwise. */
  lemma ArticleMrValue(element: Option<string>)
    ensures element.None? ==> ArticleMr(element) == ""
    ensures element.Some? && MatchMr(element.value).Some? ==>
      ArticleMr(element) == MatchMr(element.value).value
    ensures element.Some? && |element.value| == 7 && AllDigits(element.value) ==>
      ArticleMr(element) == "MR" + element.value
    ensures element.Some? && MatchMr(element.value).None? && !(|element.value| == 7 && AllDigits(element.value)) ==>
      ArticleMr(element) == ""
  {
    if element.Some? && |element.value| == 7 && AllDigits(element.value) {
      var t := element.value;
      MatchMrNone(t);
      assert forall i :: !HasMrAt(t, i) by {
        forall i | 0 <= i < |t| ensures t[i] != 'M' { assert IsAsciiDigit(t[i]); }
      }
      TrimNoOp(t);
    }
  }

  /** What getSearchItemMetadata hands on for one result header. */
  datatype ItemMeta = ItemMeta(title: string, authors: seq<string>, mr: string)

  /** NoItem: the header has no MR link (the function returns null);
      ItemThrows: computing the MR number threw. */
  datatype ItemRead = NoItem | ItemThrows | Item(meta: ItemMeta)

  /** What the element look-ups of getSearchItemMetadata find for one
      result header: the texts of its MR links (the first is the MR
      number, the second the title) and of the author links after it. */
  datatype Header = Header(mrLinkTexts: seq<string>, authorLinkTexts: seq<string>)

  /** The trimmed text of the title link, "" when there is none. */
  function HeaderTitleText(h: Header): string {
    if |h.mrLinkTexts| > 1 then Trim(h.mrLinkTexts[1]) else ""
  }

  /** getSearchItemMetadata on one result header. */
  function SearchItemMetadata(h: Header): (r: ItemRead)
    ensures r.NoItem? <==> |h.mrLinkTexts| == 0
    ensures r.ItemThrows? <==> |h.mrLinkTexts| > 0 && SearchItemMr(h.mrLinkTexts[0]).None?
    ensures r.Item? ==> Some(r.meta.mr) == SearchItemMr(h.mrLinkTexts[0]) && StartsWith(r.meta.mr, "MR")
    ensures r.Item? ==> var t := HeaderTitleText(h);
      (r.meta.title == t || r.meta.title + "." == t) && (EndsWith(t, ".") ==> r.meta.title + "." == t)
    ensures r.Item? ==> |r.meta.authors| == |h.authorLinkTexts|
    ensures r.Item? ==> forall k :: 0 <= k < |r.meta.authors| ==>
      r.meta.authors[k] == Authors.CleanAuthorName(h.authorLinkTexts[k]) && ',' !in r.meta.authors[k]
  {
    if |h.mrLinkTexts| < 1 then NoItem
    else
      match SearchItemMr(h.mrLinkTexts[0])
      case None => ItemThrows
      case Some(mr) =>
        Item(ItemMeta(Titles.StripTrailingDot(HeaderTitleText(h)), MapStrings(Authors.CleanAuthorName, h.authorLinkTexts), mr))
  }

  /** `xs.map(f)` over strings. */
  function MapStrings(f: string -> string, xs: seq<string>): (r: seq<string>)
    ensures |r| == |xs|
    ensures forall k :: 0 <= k < |r| ==> r[k] == f(xs[k])
    decreases |xs|
  {
    if xs == [] then [] else [f(xs[0])] + MapStrings(f, xs[1..])
  }


  /** What the element look-ups of getArticleMetadata find at one moment:
      the MR element's text, the title element's text, and whether an
      injection point exists. */
  datatype ArticleSnapshot = ArticleSnapshot(mrText: Option<string>, titleText: Option<string>, hasTarget: bool)

  datatype ArticleMeta = ArticleMeta(title: string, mr: string, hasTarget: bool)

  /** getArticleMetadata: trimmed title without one trailing full stop, MR
      number per ArticleMr. (The author list it also builds is never read
      by its caller.) */
  function ArticleMetadata(snap: ArticleSnapshot): (m: ArticleMeta)
    ensures m.mr == "" || IsMrNumber(m.mr)
    ensures m.hasTarget == snap.hasTarget
    ensures snap.mrText.None? ==> m.mr == ""
    ensures snap.mrText.Some? && MatchMr(snap.mrText.value).Some? ==> m.mr == MatchMr(snap.mrText.value).value
    ensures snap.mrText.Some? && |snap.mrText.value| == 7 && AllDigits(snap.mrText.value) ==>
      m.mr == "MR" + snap.mrText.value
    ensures snap.titleText.None? ==> m.title == ""
    ensures var t := TitleText(snap);
      (m.title == t || m.title + "." == t) && (EndsWith(t, ".") ==> m.title + "." == t)
  {
    ArticleMrValue(snap.mrText);
    ArticleMeta(Titles.StripTrailingDot(TitleText(snap)), ArticleMr(snap.mrText), snap.hasTarget)
  }

  /** The trimmed text of the title element, "" when there is none. */
  function TitleText(snap: ArticleSnapshot): string {
    match snap.titleText case None => "" case Some(t) => Trim(t)
  }

  /** Both fields the article pass needs have been rendered. */
  predicate Ready(m: ArticleMeta) {
    m.title != "" && m.mr != ""
  }

  /** The poll gives up after this many one-second waits. */
  const MaxRetries: nat := 15

  /** The index of the read the poll settles on, looking from read `k`:
      the first ready one, or read MaxRetries when none before it is.
      `read(k)` is what getArticleMetadata returns after k waits. */
  function SettledRead(read: nat -> ArticleMeta, k: nat): (r: nat)
    requires k <= MaxRetries
    ensures k <= r <= MaxRetries
    ensures r < MaxRetries ==> Ready(read(r))
    ensures forall m :: k <= m < r ==> !Ready(read(m))
    decreases MaxRetries - k
  {
    if k == MaxRetries || Ready(read(k)) then k else SettledRead(read, k + 1)
  }

  /** The `while (retries > 0 && (!title || !localMRNumber))` poll of the
      article pass; `waits` is the number of one-second waits taken. */
  method PollArticleMetadata(read: nat -> ArticleMeta) returns (meta: ArticleMeta, waits: nat)
    ensures waits <= MaxRetries
    ensures meta == read(waits)
    ensures Ready(meta) || waits == MaxRetries
    ensures forall m :: 0 <= m < waits ==> !Ready(read(m))
    ensures waits == SettledRead(read, 0)
  {
    meta := read(0);
    var retries := MaxRetries;
    waits := 0;
    while retries > 0 && !Ready(meta)
      invariant waits + retries == MaxRetries
      invariant meta == read(waits)
      invariant forall m :: 0 <= m < waits ==> !Ready(read(m))
    {
      meta := read(waits + 1);
      retries := retries - 1;
      waits := waits + 1;
    }
    PollSettlesAtFirstReadyRead(read, waits);
  }

  /** The poll stops at the first ready read and never waits longer. */
  lemma PollSettlesAtFirstReadyRead(read: nat -> ArticleMeta, waits: nat)
    requires waits <= MaxRetries
    requires Ready(read(waits)) || waits == MaxRetries
    requires forall m :: 0 <= m < waits ==> !Ready(read(m))
    ensures waits == SettledRead(read, 0)
  {
    var r := SettledRead(read, 0);
    assert !(r < waits);
    assert !(waits < r);
  }
}
