/**
 * `makeSlug` of the mock backend's utilities (src/mock/utils.js):
 * lower-case the title, collapse every run of characters outside `a-z0-9`
 * into one `-`, then drop a leading and a trailing `-`. Also the simpler
 * slug the pages compute themselves, which only collapses white space.
 */
module Slug {
  import opened Text

  predicate IsSlugChar(c: char) { 'a' <= c <= 'z' || '0' <= c <= '9' }

  /** The class `[^a-z0-9]` of the first replacement. */
  predicate NonSlug(c: char) { !IsSlugChar(c) }

  /** An ASCII letter of either case, or a digit. */
  predicate IsAlnum(c: char) { 'a' <= c <= 'z' || 'A' <= c <= 'Z' || '0' <= c <= '9' }

  /** `replace(/(^-|-$)/g, "")`: at most one `-` goes at each end. */
  function StripDashes(s: string): (r: string)
    ensures |r| <= |s|
  {
    var a := if |s| > 0 && s[0] == '-' then s[1..] else s;
    if |a| > 0 && a[|a| - 1] == '-' then a[..|a| - 1] else a
  }

  function MakeSlug(title: string): string
  {
    StripDashes(ReplaceRuns(Lower(title), NonSlug, '-'))
  }

  /** The shape every slug made by `MakeSlug` has. */
  predicate IsSlug(s: string)
  {
    && (forall i :: 0 <= i < |s| ==> IsSlugChar(s[i]) || s[i] == '-')
    && (forall i :: 0 <= i < |s| - 1 ==> !(s[i] == '-' && s[i + 1] == '-'))
    && (s != [] ==> s[0] != '-' && s[|s| - 1] != '-')
  }

  /** Every character of a run replacement is the replacement character or
      a character outside the class. */
  lemma {:induction false} ReplaceRunsChars(s: string, p: char -> bool, rep: char)
    ensures forall i :: 0 <= i < |ReplaceRuns(s, p, rep)| ==>
              ReplaceRuns(s, p, rep)[i] == rep || !p(ReplaceRuns(s, p, rep)[i])
    decreases |s|
  {
    if s != [] {
      var t := if p(s[0]) then SkipRun(s, p) else s[1..];
      ReplaceRunsChars(t, p, rep);
      var r := ReplaceRuns(s, p, rep);
      assert r == [if p(s[0]) then rep else s[0]] + ReplaceRuns(t, p, rep);
      forall i | 0 <= i < |r| ensures r[i] == rep || !p(r[i]) {
        if i > 0 { assert r[i] == ReplaceRuns(t, p, rep)[i - 1]; }
      }
    }
  }

  /** The string after the run replacement and before the trimming of dashes. */
  lemma Collapsed(title: string, c: string)
    requires c == ReplaceRuns(Lower(title), NonSlug, '-')
    ensures forall i :: 0 <= i < |c| ==> IsSlugChar(c[i]) || c[i] == '-'
    ensures forall i :: 0 <= i < |c| - 1 ==> !(c[i] == '-' && c[i + 1] == '-')
  {
    ReplaceRunsChars(Lower(title), NonSlug, '-');
    ReplaceRunsRunFree(Lower(title), NonSlug, '-');
    forall i | 0 <= i < |c| - 1 ensures !(c[i] == '-' && c[i + 1] == '-') {
      if c[i] == '-' { assert NonSlug(c[i]); }
    }
  }

  /** Only slug characters and dashes, never two dashes in a row. */
  predicate DashedWords(s: string)
  {
    && (forall i :: 0 <= i < |s| ==> IsSlugChar(s[i]) || s[i] == '-')
    && (forall i :: 0 <= i < |s| - 1 ==> !(s[i] == '-' && s[i + 1] == '-'))
  }

  /** Dropping the first character keeps dashed words, and a leading dash
      is never followed by another. */
  lemma DashedTail(c: string)
    requires DashedWords(c) && c != []
    ensures DashedWords(c[1..])
    ensures c[0] == '-' && |c| > 1 ==> c[1] != '-'
  {
    var a := c[1..];
    forall i | 0 <= i < |a| - 1 ensures !(a[i] == '-' && a[i + 1] == '-') {
      assert a[i] == c[i + 1] && a[i + 1] == c[i + 2];
    }
  }

  /** Dropping the last character keeps dashed words, and a trailing dash
      is never preceded by another. */
  lemma DashedFront(a: string)
    requires DashedWords(a) && a != []
    ensures DashedWords(a[..|a| - 1])
    ensures a[|a| - 1] == '-' && |a| > 1 ==> a[|a| - 2] != '-'
  {
  }

  /** Trimming one dash at each end of a string without two consecutive
      dashes leaves a slug. */
  lemma StripDashesIsSlug(c: string)
    requires forall i :: 0 <= i < |c| ==> IsSlugChar(c[i]) || c[i] == '-'
    requires forall i :: 0 <= i < |c| - 1 ==> !(c[i] == '-' && c[i + 1] == '-')
    ensures IsSlug(StripDashes(c))
  {
    assert DashedWords(c);
    var a := if |c| > 0 && c[0] == '-' then c[1..] else c;
    if |c| > 0 && c[0] == '-' {
      DashedTail(c);
    }
    assert DashedWords(a) && (a != [] ==> a[0] != '-');
    if |a| > 0 && a[|a| - 1] == '-' {
      DashedFront(a);
      var r := a[..|a| - 1];
      assert r != [] ==> r[0] == a[0] && r[|r| - 1] == a[|a| - 2];
    }
  }

  /** `makeSlug` gives only `a-z`, `0-9` and `-`, never two dashes in a row,
      and never a dash at either end. */
  lemma MakeSlugIsSlug(title: string)
    ensures IsSlug(MakeSlug(title))
  {
    Collapsed(title, ReplaceRuns(Lower(title), NonSlug, '-'));
    StripDashesIsSlug(ReplaceRuns(Lower(title), NonSlug, '-'));
  }

  lemma {:induction false} KeepAppend(a: string, b: string, p: char -> bool)
    ensures Keep(a + b, p) == Keep(a, p) + Keep(b, p)
  {
    if a != [] {
      KeepAppend(a[1..], b, p);
      var ab := a + b;
      assert ab[0] == a[0] && ab[1..] == a[1..] + b;
      if p(a[0]) {
        assert Keep(ab, p) == Keep(ab[1..], p);
      } else {
        assert Keep(ab, p) == [a[0]] + Keep(ab[1..], p);
      }
    } else {
      assert a + b == b;
    }
  }

  lemma StripDashesKeep(s: string)
    ensures Keep(StripDashes(s), NonSlug) == Keep(s, NonSlug)
  {
    var a := if |s| > 0 && s[0] == '-' then s[1..] else s;
    if |a| > 0 && a[|a| - 1] == '-' {
      KeepAppend(a[..|a| - 1], [a[|a| - 1]], NonSlug);
      assert a[..|a| - 1] + [a[|a| - 1]] == a;
    }
  }

  /** `makeSlug` keeps the title's letters and digits, lower-cased and in order,
      and drops everything else. */
  lemma MakeSlugKeeps(title: string)
    ensures Keep(MakeSlug(title), NonSlug) == Keep(Lower(title), NonSlug)
  {
    ReplaceRunsKeep(Lower(title), NonSlug, '-');
    StripDashesKeep(ReplaceRuns(Lower(title), NonSlug, '-'));
  }

  lemma {:induction false} KeepEmptyIff(s: string, p: char -> bool)
    ensures Keep(s, p) == [] <==> forall i :: 0 <= i < |s| ==> p(s[i])
  {
    if s != [] {
      KeepEmptyIff(s[1..], p);
      assert forall i :: 1 <= i < |s| ==> s[i] == s[1..][i - 1];
    }
  }

  lemma LowerAlnum(c: char)
    ensures IsSlugChar(LowerChar(c)) <==> IsAlnum(c)
  {
  }

  /** The slug is empty exactly when the title holds no ASCII letter or digit. */
  lemma MakeSlugEmptyIff(title: string)
    ensures MakeSlug(title) == [] <==> forall i :: 0 <= i < |title| ==> !IsAlnum(title[i])
  {
    var l := Lower(title);
    var c := ReplaceRuns(l, NonSlug, '-');
    MakeSlugKeeps(title);
    KeepEmptyIff(MakeSlug(title), NonSlug);
    KeepEmptyIff(l, NonSlug);
    forall i | 0 <= i < |title| ensures NonSlug(l[i]) <==> !IsAlnum(title[i]) {
      LowerAlnum(title[i]);
    }
    if MakeSlug(title) != [] && forall i :: 0 <= i < |title| ==> !IsAlnum(title[i]) {
      MakeSlugIsSlug(title);
    }
  }

  /** A slug is its own slug, so `makeSlug` is idempotent. */
  lemma MakeSlugOfSlug(s: string)
    requires IsSlug(s)
    ensures MakeSlug(s) == s
  {
    assert Lower(s) == s;
    assert RunFree(s, NonSlug, '-') by {
      forall i | 0 <= i < |s| && NonSlug(s[i])
        ensures s[i] == '-' && (i + 1 < |s| ==> !NonSlug(s[i + 1]))
      {
      }
    }
    ReplaceRunsFixed(s, NonSlug, '-');
  }

  lemma MakeSlugIdempotent(title: string)
    ensures MakeSlug(MakeSlug(title)) == MakeSlug(title)
  {
    MakeSlugIsSlug(title);
    MakeSlugOfSlug(MakeSlug(title));
  }

  lemma {:induction false} ReplaceRunsPlain(a: string, b: string, p: char -> bool, rep: char)
    requires forall i :: 0 <= i < |a| ==> !p(a[i])
    ensures ReplaceRuns(a + b, p, rep) == a + ReplaceRuns(b, p, rep)
    decreases |a|
  {
    if a == [] {
      assert a + b == b;
    } else {
      var x, t := a[0], a[1..];
      var rb := ReplaceRuns(b, p, rep);
      PlainTail(a, p);
      assert ReplaceRuns(t + b, p, rep) == t + rb by {
        ReplaceRunsPlain(t, b, p, rep);
      }
      assert ReplaceRuns([x] + (t + b), p, rep) == [x] + ReplaceRuns(t + b, p, rep) by {
        ReplaceRunsKept(x, t + b, p, rep);
      }
      assert a + b == [x] + (t + b);
      assert a + rb == [x] + (t + rb);
    }
  }

  lemma PlainTail(a: string, p: char -> bool)
    requires a != [] && forall i :: 0 <= i < |a| ==> !p(a[i])
    ensures !p(a[0]) && forall i :: 0 <= i < |a[1..]| ==> !p(a[1..][i])
  {
    forall i | 0 <= i < |a[1..]| ensures !p(a[1..][i]) {
      assert a[1..][i] == a[i + 1];
    }
  }

  /** A character outside the class is copied as it is. */
  lemma ReplaceRunsKept(x: char, s: string, p: char -> bool, rep: char)
    requires !p(x)
    ensures ReplaceRuns([x] + s, p, rep) == [x] + ReplaceRuns(s, p, rep)
  {
    assert ([x] + s)[1..] == s;
  }

  lemma PlainFixed(w: string)
    requires forall i :: 0 <= i < |w| ==> IsSlugChar(w[i])
    ensures SkipRun(w, NonSlug) == w
    ensures ReplaceRuns(w, NonSlug, '-') == w
  {
    ReplaceRunsPlain(w, "", NonSlug, '-');
    assert w + "" == w;
  }

  lemma StripDashesNoop(s: string)
    requires s != [] && s[0] != '-' && s[|s| - 1] != '-'
    ensures StripDashes(s) == s
  {
  }

  /** Two words joined by one space collapse to the words joined by one dash. */
  lemma CollapseTwoWords(head: string, word: string)
    requires forall i :: 0 <= i < |head| ==> IsSlugChar(head[i])
    requires forall i :: 0 <= i < |word| ==> IsSlugChar(word[i])
    ensures ReplaceRuns(head + ([' '] + word), NonSlug, '-') == head + (['-'] + word)
  {
    var tail := [' '] + word;
    PlainFixed(word);
    assert tail[1..] == word;
    assert SkipRun(tail, NonSlug) == word;
    assert ReplaceRuns(tail, NonSlug, '-') == ['-'] + word;
    ReplaceRunsPlain(head, tail, NonSlug, '-');
  }

  /** "Senior Engineer" becomes "senior-engineer". */
  lemma SeniorEngineer(title: string)
    requires title == "Senior Engineer"
    ensures MakeSlug(title) == "senior-engineer"
  {
    var head, word := "senior", "engineer";
    assert Lower(title) == head + ([' '] + word);
    CollapseTwoWords(head, word);
    var c := head + (['-'] + word);
    assert |c| == 15 && c[0] == 's' && c[14] == 'r';
    StripDashesNoop(c);
    assert c == "senior-engineer";
  }

  /** `title.toLowerCase().replace(/\s+/g, "-")`, the slug the job pages
      compute: only runs of white space become `-`. */
  function DashSlug(title: string): (r: string)
    ensures |r| <= |title|
    ensures title != [] ==> r != []
  {
    ReplaceRuns(Lower(title), IsSpace, '-')
  }

  /** A dash slug has no white space left; a title without white space
      is only lower-cased. */
  lemma DashSlugNoSpace(title: string)
    ensures forall i :: 0 <= i < |DashSlug(title)| ==> !IsSpace(DashSlug(title)[i])
    ensures (forall i :: 0 <= i < |title| ==> !IsSpace(title[i])) ==> DashSlug(title) == Lower(title)
  {
    ReplaceRunsChars(Lower(title), IsSpace, '-');
    var l := Lower(title);
    if forall i :: 0 <= i < |title| ==> !IsSpace(title[i]) {
      assert forall i :: 0 <= i < |l| ==> !IsSpace(l[i]);
      ReplaceRunsPlain(l, [], IsSpace, '-');
      assert l + [] == l;
    }
  }
}
