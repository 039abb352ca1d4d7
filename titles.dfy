/** The title equivalence test of the content script (areTitlesSimilar) and
    the small title clean-ups applied to scraped and fetched titles. */
module Titles {
  import opened JsStrings

  /** A character that survives the `[^a-z0-9]` deletion. */
  predicate IsAlnumLower(c: char) { IsAsciiLower(c) || IsAsciiDigit(c) }

  predicate AllAlnumLower(s: string) {
    forall i :: 0 <= i < |s| ==> IsAlnumLower(s[i])
  }

  /** String.prototype.toLowerCase on one character, exact wherever the
      lower-case form contains a character of [a-z0-9]: ASCII capitals, the
      KELVIN SIGN (lower-cases to "k") and LATIN CAPITAL LETTER I WITH DOT
      ABOVE (lower-cases to "i" followed by COMBINING DOT ABOVE). Every
      other character is kept as it is; its true lower-case form lies
      outside [a-z0-9] as well, so the deletion that follows removes it
      either way. */
  function LowerChar(c: char): string {
    if IsAsciiUpper(c) then [(c as int + 32) as char]
    else if c == '\U{212A}' then "k"
    else if c == '\U{130}' then "i\U{307}"
    else [c]
  }

  function Lower(s: string): string
    decreases |s|
  {
    if s == [] then [] else LowerChar(s[0]) + Lower(s[1..])
  }

  /** `replace(/--/g, '-')`: non-overlapping, left to right. */
  function CollapseDashes(s: string): string
    decreases |s|
  {
    if |s| >= 2 && s[0] == '-' && s[1] == '-' then "-" + CollapseDashes(s[2..])
    else if s == [] then []
    else [s[0]] + CollapseDashes(s[1..])
  }

  /** `replace(/[^a-z0-9]/g, '')`. */
  function KeepAlnum(s: string): string
    decreases |s|
  {
    if s == [] then []
    else if IsAlnumLower(s[0]) then [s[0]] + KeepAlnum(s[1..])
    else KeepAlnum(s[1..])
  }

  /** The `norm` arrow of areTitlesSimilar: lower-case, collapse `--`,
      delete everything outside [a-z0-9], trim. */
  function Norm(s: string): string {
    Trim(KeepAlnum(CollapseDashes(Lower(s))))
  }

  /** areTitlesSimilar: both titles present and non-empty, and one
      normalized form contains the other. */
  predicate AreTitlesSimilar(t1: string, t2: string) {
    t1 != "" && t2 != ""
    && (Contains(Norm(t1), Norm(t2)) || Contains(Norm(t2), Norm(t1)))
  }

  /** `title.replace(/\.$/, '')`: one trailing full stop is dropped. */
  function StripTrailingDot(s: string): (r: string)
    ensures s == r || s == r + "."
    ensures |s| > 0 && s[|s| - 1] == '.' ==> |r| == |s| - 1
    ensures EndsWith(s, ".") ==> r + "." == s
  {
    if |s| > 0 && s[|s| - 1] == '.' then s[..|s| - 1] else s
  }

  /** The abs-page title: `replace(/^Title:/, '').trim()` on the title
      element's text, or the sentinel "NOT_FOUND" when there is no element. */
  function AbsTitle(element: Option<string>): string {
    match element
    case None => "NOT_FOUND"
    case Some(text) => Trim(if StartsWith(text, "Title:") then text[6..] else text)
  }

  // ---------------------------------------------------------------------
  // Normal form

  lemma {:induction false} KeepAlnumAppend(a: string, b: string)
    ensures KeepAlnum(a + b) == KeepAlnum(a) + KeepAlnum(b)
    decreases |a|
  {
    if a == [] {
      assert a + b == b;
    } else {
      assert (a + b)[0] == a[0] && (a + b)[1..] == a[1..] + b;
      KeepAlnumAppend(a[1..], b);
    }
  }

  lemma {:induction false} KeepAlnumIsAlnum(s: string)
    ensures AllAlnumLower(KeepAlnum(s))
    decreases |s|
  {
    if s != [] { KeepAlnumIsAlnum(s[1..]); }
  }

  lemma {:induction false} KeepAlnumOfAlnum(s: string)
    requires AllAlnumLower(s)
    ensures KeepAlnum(s) == s
    decreases |s|
  {
    if s != [] {
      KeepAlnumOfAlnum(s[1..]);
      assert [s[0]] + s[1..] == s;
    }
  }

  /** The `--` rewrite cannot change what the deletion keeps, since the
      deletion removes `-` anyway. */
  lemma {:induction false} CollapseDashesRedundant(s: string)
    ensures KeepAlnum(CollapseDashes(s)) == KeepAlnum(s)
    decreases |s|
  {
    if |s| >= 2 && s[0] == '-' && s[1] == '-' {
      CollapseDashesRedundant(s[2..]);
      KeepAlnumAppend("-", CollapseDashes(s[2..]));
      assert s == "--" + s[2..];
      KeepAlnumAppend("--", s[2..]);
    } else if s != [] {
      CollapseDashesRedundant(s[1..]);
      KeepAlnumAppend([s[0]], CollapseDashes(s[1..]));
      assert s == [s[0]] + s[1..];
      KeepAlnumAppend([s[0]], s[1..]);
    }
  }

  /** The trim is redundant too: what is left has no white space. */
  lemma TrimOfAlnum(s: string)
    requires AllAlnumLower(s)
    ensures Trim(s) == s
  {
    TrimNoOp(s);
  }

  /** The normal form is the string's lower case with every character
      outside [a-z0-9] deleted; the `--` rewrite and the trim have no effect. */
  lemma NormIsFilteredLowerCase(s: string)
    ensures Norm(s) == KeepAlnum(Lower(s))
  {
    CollapseDashesRedundant(Lower(s));
    KeepAlnumIsAlnum(Lower(s));
    TrimOfAlnum(KeepAlnum(Lower(s)));
  }

  /** The normal form contains only lower-case ASCII letters and digits. */
  lemma NormIsAlnum(s: string)
    ensures AllAlnumLower(Norm(s))
  {
    NormIsFilteredLowerCase(s);
    KeepAlnumIsAlnum(Lower(s));
  }

  lemma {:induction false} LowerAppend(a: string, b: string)
    ensures Lower(a + b) == Lower(a) + Lower(b)
    decreases |a|
  {
    if a == [] {
      assert a + b == b;
    } else {
      assert (a + b)[0] == a[0] && (a + b)[1..] == a[1..] + b;
      LowerAppend(a[1..], b);
    }
  }

  lemma {:induction false} LowerOfAlnum(s: string)
    requires AllAlnumLower(s)
    ensures Lower(s) == s
    decreases |s|
  {
    if s != [] {
      LowerOfAlnum(s[1..]);
      assert [s[0]] + s[1..] == s;
    }
  }

  /** Normalizing twice is normalizing once. */
  lemma NormIdempotent(s: string)
    ensures Norm(Norm(s)) == Norm(s)
  {
    var n := Norm(s);
    NormIsAlnum(s);
    NormIsFilteredLowerCase(n);
    LowerOfAlnum(n);
    KeepAlnumOfAlnum(n);
  }

  lemma {:induction false} LowerIdempotent(s: string)
    ensures Lower(Lower(s)) == Lower(s)
    decreases |s|
  {
    if s != [] {
      LowerIdempotent(s[1..]);
      var c := s[0];
      LowerAppend(LowerChar(c), Lower(s[1..]));
      if c == '\U{130}' {
        assert Lower("i\U{307}") == "i\U{307}" by {
          assert "i\U{307}"[1..] == "\U{307}";
          assert "\U{307}"[1..] == "";
        }
      } else {
        assert Lower(LowerChar(c)) == LowerChar(c) by {
          assert LowerChar(c)[1..] == "";
        }
      }
    }
  }

  /** Case never matters: a title and its lower-case form normalize alike. */
  lemma NormIgnoresCase(s: string)
    ensures Norm(Lower(s)) == Norm(s)
  {
    NormIsFilteredLowerCase(s);
    NormIsFilteredLowerCase(Lower(s));
    LowerIdempotent(s);
  }

  /** Two characters with the same lower-case form are interchangeable. */
  lemma NormRespectsLowerChar(a: string, c: char, d: char, b: string)
    requires LowerChar(c) == LowerChar(d)
    ensures Norm(a + [c] + b) == Norm(a + [d] + b)
  {
    NormIsFilteredLowerCase(a + [c] + b);
    NormIsFilteredLowerCase(a + [d] + b);
    LowerAppend(a + [c], b);
    LowerAppend(a, [c]);
    LowerAppend(a + [d], b);
    LowerAppend(a, [d]);
    assert Lower([c]) == LowerChar(c) by { assert [c][1..] == []; }
    assert Lower([d]) == LowerChar(d) by { assert [d][1..] == []; }
  }

  /** Upper-casing an ASCII letter anywhere leaves the normal form alone. */
  lemma NormIgnoresAsciiCase(a: string, u: char, b: string)
    requires IsAsciiUpper(u)
    ensures Norm(a + [u] + b) == Norm(a + [(u as int + 32) as char] + b)
  {
    var c := (u as int + 32) as char;
    assert LowerChar(c) == [c];
    NormRespectsLowerChar(a, u, c, b);
  }

  /** Punctuation never matters: inserting a character whose lower-case
      form has no ASCII letter or digit leaves the normal form alone. */
  lemma NormIgnoresPunctuation(a: string, c: char, b: string)
    requires KeepAlnum(LowerChar(c)) == ""
    ensures Norm(a + [c] + b) == Norm(a + b)
  {
    NormIsFilteredLowerCase(a + [c] + b);
    NormIsFilteredLowerCase(a + b);
    FilterDropsChar(a, c, b);
  }

  lemma LowerOfOne(c: char)
    ensures Lower([c]) == LowerChar(c)
  {
    assert [c][1..] == [];
  }

  lemma FilterDropsChar(a: string, c: char, b: string)
    requires KeepAlnum(LowerChar(c)) == ""
    ensures KeepAlnum(Lower(a + [c] + b)) == KeepAlnum(Lower(a + b))
  {
    calc {
      KeepAlnum(Lower(a + [c] + b));
    == { LowerAppend(a + [c], b); LowerAppend(a, [c]); LowerOfOne(c); }
      KeepAlnum(Lower(a) + LowerChar(c) + Lower(b));
    == { KeepAlnumAppend(Lower(a) + LowerChar(c), Lower(b)); KeepAlnumAppend(Lower(a), LowerChar(c)); }
      KeepAlnum(Lower(a)) + KeepAlnum(Lower(b));
    == { KeepAlnumAppend(Lower(a), Lower(b)); LowerAppend(a, b); }
      KeepAlnum(Lower(a + b));
    }
  }

  // ---------------------------------------------------------------------
  // The similarity test

  /** A missing or empty title is never similar to anything. */
  lemma SimilarNeedsBothTitles(t1: string, t2: string)
    requires t1 == "" || t2 == ""
    ensures !AreTitlesSimilar(t1, t2)
  {
  }

  lemma SimilarSymmetric(t1: string, t2: string)
    ensures AreTitlesSimilar(t1, t2) <==> AreTitlesSimilar(t2, t1)
  {
  }

  lemma {:induction false} ContainsSelf(s: string)
    ensures Contains(s, s)
  {
    assert s[..|s|] == s;
  }

  /** Every non-empty title is similar to itself. */
  lemma SimilarReflexive(t: string)
    requires t != ""
    ensures AreTitlesSimilar(t, t)
  {
    ContainsSelf(Norm(t));
  }

  /** The test only sees the normal forms of two present titles. */
  lemma SimilarDependsOnNormOnly(t1: string, t1': string, t2: string)
    requires t1 != "" && t1' != "" && Norm(t1) == Norm(t1')
    ensures AreTitlesSimilar(t1, t2) <==> AreTitlesSimilar(t1', t2)
  {
  }

  /** A non-empty title that normalizes to "" (punctuation only) is judged
      similar to every non-empty title, since every string includes "". */
  lemma PunctuationOnlyTitleMatchesAll(t1: string, t2: string)
    requires t1 != "" && t2 != "" && Norm(t1) == ""
    ensures AreTitlesSimilar(t1, t2)
  {
    assert StartsWith(Norm(t2), "");
  }
}
