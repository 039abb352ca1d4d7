/** Author-name canonicalisation (cleanAuthorName), the surname of an abs
    page author, the author part of the mrlookup query and the MR prefix
    strip used by the cross-check. */
module Authors {
  import opened JsStrings

  /** Index of the first line terminator, or |s|: how far `.*` can reach. */
  function LineEnd(s: string): (n: nat)
    ensures n <= |s|
    ensures forall k :: 0 <= k < n ==> !IsLineTerminator(s[k])
    ensures n < |s| ==> IsLineTerminator(s[n])
    decreases |s|
  {
    if s == [] || IsLineTerminator(s[0]) then 0 else 1 + LineEnd(s[1..])
  }

  /** Index of the last `c` in `s`, if any. */
  function LastIndexOf(s: string, c: char): (r: Option<nat>)
    ensures r.Some? ==> r.value < |s| && s[r.value] == c
    ensures r.Some? ==> forall k :: r.value < k < |s| ==> s[k] != c
    ensures r.None? ==> c !in s
    decreases |s|
  {
    if s == [] then None
    else if s[|s| - 1] == c then Some(|s| - 1)
    else LastIndexOf(s[..|s| - 1], c)
  }

  /** `replace(/\(.*\)/g, '')`: scanning left to right, an opening
      parenthesis that has a closing one later on its line starts a match,
      which greedily runs to the LAST closing parenthesis before the end of
      that line; the match is deleted and the scan resumes after it. */
  function StripParenthesized(s: string): string
    decreases |s|
  {
    if s == [] then []
    else if s[0] == '(' then
      match LastIndexOf(s[..LineEnd(s)], ')')
      case Some(j) => StripParenthesized(s[j + 1..])
      case None => [s[0]] + StripParenthesized(s[1..])
    else [s[0]] + StripParenthesized(s[1..])
  }

  lemma {:induction false} SplitHasTwo(s: string, c: char)
    requires c in s
    ensures |Split(s, c)| >= 2
    decreases |s|
  {
    if s[0] != c { SplitHasTwo(s[1..], c); }
  }

  lemma TrimKeepsAbsence(s: string, c: char)
    requires c !in s
    ensures c !in Trim(s)
  {
    var t := TrimStart(s);
    assert c !in t by {
      forall i | 0 <= i < |t| ensures t[i] != c { assert t[i] == s[|s| - |t| + i]; }
    }
    var r := TrimEnd(t);
    forall i | 0 <= i < |r| ensures r[i] != c { assert r[i] == t[i]; }
  }

  /** cleanAuthorName: "" stays ""; parenthesised spans are deleted and the
      rest trimmed; a name with a comma, "Last, First[, …]", becomes
      "First Last" from its first two comma-separated parts. The result
      never holds a comma. */
  function CleanAuthorName(name: string): (r: string)
    ensures name == "" ==> r == ""
    ensures ',' !in r
  {
    if name == "" then ""
    else
      var clean := Trim(StripParenthesized(name));
      if ',' in clean then
        SplitHasTwo(clean, ',');
        var parts := Split(clean, ',');
        SplitPiecesFree(clean, ',');
        TrimKeepsAbsence(parts[1], ',');
        TrimKeepsAbsence(parts[0], ',');
        Trim(parts[1]) + " " + Trim(parts[0])
      else clean
  }

  // ---------------------------------------------------------------------
  // The parenthesis deletion

  lemma {:induction false} StripAfterPlainPrefix(a: string, b: string)
    requires '(' !in a
    ensures StripParenthesized(a + b) == a + StripParenthesized(b)
    decreases |a|
  {
    if a == [] {
      assert a + b == b;
    } else {
      assert (a + b)[0] == a[0] && (a + b)[1..] == a[1..] + b;
      StripAfterPlainPrefix(a[1..], b);
      assert [a[0]] + a[1..] == a;
    }
  }

  lemma {:induction false} StripWithoutClose(t: string)
    requires ')' !in t
    ensures StripParenthesized(t) == t
    decreases |t|
  {
    if t != [] {
      assert ')' !in t[..LineEnd(t)];
      StripWithoutClose(t[1..]);
      assert [t[0]] + t[1..] == t;
    }
  }

  lemma LineEndOfOneLine(t: string)
    requires forall k :: 0 <= k < |t| ==> !IsLineTerminator(t[k])
    ensures LineEnd(t) == |t|
  {
  }

  lemma LastIndexOfIs(t: string, c: char, j: nat)
    requires j < |t| && t[j] == c
    requires forall k :: j < k < |t| ==> t[k] != c
    ensures LastIndexOf(t, c) == Some(j)
  {
  }

  /** On a single line starting with `(`, the match reaches the last `)`. */
  lemma StripAtOpen(t: string, j: nat)
    requires forall k :: 0 <= k < |t| ==> !IsLineTerminator(t[k])
    requires 0 < j < |t| && t[0] == '(' && t[j] == ')'
    requires forall k :: j < k < |t| ==> t[k] != ')'
    ensures StripParenthesized(t) == StripParenthesized(t[j + 1..])
  {
    LineEndOfOneLine(t);
    LastIndexOfIs(t, ')', j);
    assert t[..LineEnd(t)] == t;
  }

  /** On one line, the text from the first `(` to the last `)` is deleted. */
  lemma ParenSpanRemoved(s: string, i: nat, j: nat)
    requires forall k :: 0 <= k < |s| ==> !IsLineTerminator(s[k])
    requires i < j < |s| && s[i] == '(' && s[j] == ')'
    requires '(' !in s[..i] && ')' !in s[j + 1..]
    ensures StripParenthesized(s) == s[..i] + s[j + 1..]
  {
    assert s == s[..i] + s[i..];
    StripAfterPlainPrefix(s[..i], s[i..]);
    StripFromOpen(s, i, j);
  }

  lemma StripFromOpen(s: string, i: nat, j: nat)
    requires forall k :: 0 <= k < |s| ==> !IsLineTerminator(s[k])
    requires i < j < |s| && s[i] == '(' && s[j] == ')'
    requires ')' !in s[j + 1..]
    ensures StripParenthesized(s[i..]) == s[j + 1..]
  {
    var t := s[i..];
    var rest := s[j + 1..];
    forall k | 0 <= k < |t| ensures !IsLineTerminator(t[k]) { assert t[k] == s[i + k]; }
    forall k | j - i < k < |t| ensures t[k] != ')' { assert t[k] == rest[k - (j - i) - 1]; }
    StripAtOpen(t, j - i);
    assert t[j - i + 1..] == rest;
    StripWithoutClose(rest);
  }

  /** A name without `(` loses nothing to the deletion. */
  lemma StripWithoutOpen(s: string)
    requires '(' !in s
    ensures StripParenthesized(s) == s
  {
    StripAfterPlainPrefix(s, "");
    assert s + "" == s;
  }

  lemma CleanOfPlainName(s: string)
    requires s != "" && '(' !in s && Trim(s) == s && ',' in s
    ensures |Split(s, ',')| >= 2
    ensures CleanAuthorName(s) == Trim(Split(s, ',')[1]) + " " + Trim(Split(s, ',')[0])
  {
    StripWithoutOpen(s);
    SplitHasTwo(s, ',');
  }

  /** "Last, First" becomes "First Last"; any further comma-separated
      parts are dropped. */
  lemma CleanLastFirst(last: string, first: string, rest: string)
    requires ',' !in last && ',' !in first
    requires rest == "" || rest[0] == ','
    requires '(' !in last + "," + first + rest
    requires Trim(last + "," + first + rest) == last + "," + first + rest
    ensures CleanAuthorName(last + "," + first + rest) == Trim(first) + " " + Trim(last)
  {
    var tail := first + rest;
    var s := last + "," + first + rest;
    assert s == last + [','] + tail;
    SplitAfterPiece(last, ',', tail);
    var parts := Split(s, ',');
    assert parts == [last] + Split(tail, ',');
    FirstPiece(first, rest);
    assert parts[0] == last && parts[1] == first;
    assert ',' in s by { assert s[|last|] == ','; }
    CleanOfPlainName(s);
  }

  /** The first piece of `first + rest` is `first` when `rest` is empty
      or starts with the separator. */
  lemma FirstPiece(first: string, rest: string)
    requires ',' !in first
    requires rest == "" || rest[0] == ','
    ensures Split(first + rest, ',')[0] == first
  {
    if rest == "" {
      assert first + rest == first;
      SplitFree(first, ',');
    } else {
      assert first + rest == first + [','] + rest[1..] by {
        assert rest == [rest[0]] + rest[1..];
      }
      SplitAfterPiece(first, ',', rest[1..]);
    }
  }

  // ---------------------------------------------------------------------
  // Surnames and the mrlookup query

  /** `textContent.trim().split(' ').pop()`: the last space-separated token. */
  function Surname(author: string): string {
    Last(Split(Trim(author), ' '))
  }

  lemma {:induction false} SplitLastIsSuffix(s: string, c: char)
    ensures EndsWith(s, Last(Split(s, c)))
    decreases |s|
  {
    if |s| > 0 {
      SplitLastIsSuffix(s[1..], c);
      var rest := Split(s[1..], c);
      if s[0] != c && |rest| == 1 {
        SplitSingle(s[1..], c);
        assert Split(s, c) == [[s[0]] + s[1..]];
        assert [s[0]] + s[1..] == s;
      } else {
        assert Last(Split(s, c)) == Last(rest);
        SuffixOfTail(s, Last(rest));
      }
    }
  }

  lemma SuffixOfTail(s: string, p: string)
    requires |s| > 0 && EndsWith(s[1..], p)
    ensures EndsWith(s, p)
  {
    assert s[|s| - |p|..] == s[1..][|s| - 1 - |p|..];
  }

  lemma {:induction false} SplitSingle(s: string, c: char)
    ensures |Split(s, c)| == 1 ==> Split(s, c) == [s]
    decreases |s|
  {
    if |s| > 0 && s[0] != c {
      SplitSingle(s[1..], c);
      assert [s[0]] + s[1..] == s;
    }
  }

  /** With two or more pieces, the last piece is a proper suffix preceded
      by the separator. */
  lemma {:induction false} SplitLastPreceded(s: string, c: char)
    ensures var l := Last(Split(s, c));
      |Split(s, c)| >= 2 ==> |l| < |s| && s[|s| - |l| - 1] == c
    decreases |s|
  {
    if |s| > 0 {
      var rest := Split(s[1..], c);
      SplitLastPreceded(s[1..], c);
      SplitLastIsSuffix(s[1..], c);
      if s[0] == c {
        assert Split(s, c) == [""] + rest;
        assert Last(Split(s, c)) == Last(rest);
        if |rest| == 1 {
          SplitSingle(s[1..], c);
        } else {
          assert s[1..][|s| - 1 - |Last(rest)| - 1] == s[|s| - |Last(rest)| - 1];
        }
      } else if |rest| >= 2 {
        assert Last(Split(s, c)) == Last(rest);
        assert s[1..][|s| - 1 - |Last(rest)| - 1] == s[|s| - |Last(rest)| - 1];
      }
    }
  }

  /** The surname is the last space-separated token of the trimmed name:
      it holds no space, ends the trimmed name, and is either all of it or
      preceded by a space. A name without spaces is its own surname. */
  lemma SurnameShape(author: string)
    ensures ' ' !in Surname(author)
    ensures EndsWith(Trim(author), Surname(author))
    ensures var t := Trim(author); var n := Surname(author);
      |n| < |t| ==> t[|t| - |n| - 1] == ' '
    ensures ' ' !in Trim(author) ==> Surname(author) == Trim(author)
  {
    var t := Trim(author);
    SplitPiecesFree(t, ' ');
    SplitLastIsSuffix(t, ' ');
    SplitLastPreceded(t, ' ');
    SplitSingle(t, ' ');
    if ' ' !in t { SplitFree(t, ' '); }
  }

  function Min(a: nat, b: nat): nat { if a < b then a else b }

  /** `lastNames.slice(0, 3).join(' and ')`. */
  function LookupAuthors(surnames: seq<string>): string {
    Join(surnames[..Min(3, |surnames|)], " and ")
  }

  /** The tokens `a and b and c` of a conjunction of names. */
  function AndList(names: seq<string>): (r: seq<string>)
    ensures |names| > 0 ==> |r| > 0
    ensures forall k :: 0 <= k < |r| ==> r[k] == "and" || r[k] in names
    decreases |names|
  {
    if |names| <= 1 then names else [names[0], "and"] + AndList(names[1..])
  }

  lemma {:induction false} JoinWithAnd(names: seq<string>)
    ensures Join(names, " and ") == Join(AndList(names), " ")
    decreases |names|
  {
    if |names| >= 2 {
      JoinWithAnd(names[1..]);
      var tail := AndList(names[1..]);
      var j := Join(tail, " ");
      var l := [names[0], "and"] + tail;
      assert l[0] == names[0] && l[1..] == ["and"] + tail;
      assert (["and"] + tail)[0] == "and" && (["and"] + tail)[1..] == tail;
      assert Join(["and"] + tail, " ") == "and" + " " + j;
      AndSeparator(names[0], j);
    }
  }

  lemma AndSeparator(x: string, j: string)
    ensures x + " " + ("and" + " " + j) == x + " and " + j
  {
    assert " " + ("and" + " " + j) == " and " + j;
  }

  /** Read back on spaces, the query lists at most the first three
      surnames, in order, joined by "and". */
  lemma LookupAuthorsTokens(surnames: seq<string>)
    requires |surnames| > 0
    requires forall k :: 0 <= k < |surnames| ==> ' ' !in surnames[k]
    ensures Split(LookupAuthors(surnames), ' ') == AndList(surnames[..Min(3, |surnames|)])
  {
    var first := surnames[..Min(3, |surnames|)];
    JoinWithAnd(first);
    var l := AndList(first);
    forall k | 0 <= k < |l| ensures ' ' !in l[k] {
      if l[k] != "and" {
        var m :| 0 <= m < |first| && first[m] == l[k];
        assert first[m] == surnames[m];
      }
    }
    SplitJoin(l, ' ');
  }

  /** `localMRNumber.replace("MR", "")`: the first "MR" is removed. */
  function StripMrPrefix(mr: string): string {
    ReplaceFirst(mr, "MR", "")
  }

  /** An MR number of the usual shape loses just its prefix. */
  lemma StripMrPrefixOfNumber(digits: string)
    ensures StripMrPrefix("MR" + digits) == digits
  {
    var s := "MR" + digits;
    assert s[..2] == "MR";
    assert s[2..] == digits;
  }
}
