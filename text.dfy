/**
 * The JavaScript string operations the application relies on, over `seq<char>`:
 * `toLowerCase` (ASCII letters only), `trim`, `length` in UTF-16 code units,
 * `includes`, `split` on one character, `join`, and `replace(/X+/g, c)` for a
 * character class X.
 */
module Text {

  // ---------------------------------------------------------------- case

  predicate IsUpper(c: char) { 'A' <= c <= 'Z' }

  function LowerChar(c: char): (r: char)
    ensures !IsUpper(r)
    ensures !IsUpper(c) ==> r == c
  {
    if IsUpper(c) then (c as int + 32) as char else c
  }

  /** `toLowerCase`, restricted to the ASCII letters. */
  function Lower(s: string): (r: string)
    ensures |r| == |s|
    ensures forall i :: 0 <= i < |s| ==> r[i] == LowerChar(s[i])
  {
    seq(|s|, i requires 0 <= i < |s| => LowerChar(s[i]))
  }

  lemma LowerIdempotent(s: string)
    ensures Lower(Lower(s)) == Lower(s)
  {
  }

  lemma LowerAppend(a: string, b: string)
    ensures Lower(a + b) == Lower(a) + Lower(b)
  {
  }

  // ---------------------------------------------------------- whitespace

  /** The characters JavaScript's `\s` and `trim` treat as white space. */
  predicate IsSpace(c: char)
  {
    c == ' ' || c == '\t' || c == '\n' || c == '\r' || c == '\U{B}' || c == '\U{C}'
    || c == '\U{A0}' || c == '\U{1680}' || ('\U{2000}' <= c <= '\U{200A}')
    || c == '\U{2028}' || c == '\U{2029}' || c == '\U{202F}' || c == '\U{205F}'
    || c == '\U{3000}' || c == '\U{FEFF}'
  }

  predicate AllSpace(s: string) { forall i :: 0 <= i < |s| ==> IsSpace(s[i]) }

  function TrimStart(s: string): string
  {
    if |s| > 0 && IsSpace(s[0]) then TrimStart(s[1..]) else s
  }

  function TrimEnd(s: string): string
  {
    if |s| > 0 && IsSpace(s[|s| - 1]) then TrimEnd(s[..|s| - 1]) else s
  }

  /** `trimStart` keeps a suffix that does not start with white space,
      having dropped only white space. */
  lemma {:induction false} TrimStartSpec(s: string)
    ensures var r := TrimStart(s);
            && |r| <= |s| && r == s[|s| - |r|..]
            && AllSpace(s[..|s| - |r|])
            && (r != [] ==> !IsSpace(r[0]))
  {
    if |s| > 0 && IsSpace(s[0]) {
      TrimStartSpec(s[1..]);
      var r := TrimStart(s[1..]);
      var k := |s| - |r|;
      assert s[1..][..|s| - 1 - |r|] == s[1..k];
      forall i | 0 <= i < k ensures IsSpace(s[..k][i]) {
        if i > 0 {
          assert s[..k][i] == s[1..k][i - 1];
        }
      }
    }
  }

  /** `trimEnd` keeps a prefix that does not end with white space, having
      dropped only white space. */
  lemma {:induction false} TrimEndSpec(s: string)
    ensures var r := TrimEnd(s);
            && |r| <= |s| && r == s[..|r|]
            && AllSpace(s[|r|..])
            && (r != [] ==> !IsSpace(r[|r| - 1]))
  {
    if |s| > 0 && IsSpace(s[|s| - 1]) {
      var t := s[..|s| - 1];
      TrimEndSpec(t);
      var r := TrimEnd(t);
      assert r == s[..|r|];
      forall i | 0 <= i < |s| - |r| ensures IsSpace(s[|r|..][i]) {
        if i < |t| - |r| {
          assert s[|r|..][i] == t[|r|..][i];
        }
      }
    }
  }

  /** `trim`: drop leading and trailing white space. */
  function Trim(s: string): string
  {
    TrimEnd(TrimStart(s))
  }

  /** A string that `trim` leaves as it is. */
  predicate IsTrimmed(s: string)
  {
    s == [] || (!IsSpace(s[0]) && !IsSpace(s[|s| - 1]))
  }

  /** `trim` gives an infix of its input that neither starts nor ends with
      white space, having dropped only white space. */
  lemma TrimSpec(s: string)
    ensures IsTrimmed(Trim(s))
    ensures exists i, j :: 0 <= i <= j <= |s| && Trim(s) == s[i..j]
                           && AllSpace(s[..i]) && AllSpace(s[j..])
  {
    var t := TrimStart(s);
    TrimStartSpec(s);
    var i := |s| - |t|;
    var r := TrimEnd(t);
    TrimEndSpec(t);
    assert t == s[i..];
    assert r == t[..|r|];
    assert t[..|r|] == s[i..i + |r|];
    assert s[i + |r|..] == t[|r|..];
    if r != [] {
      assert r[0] == t[0];
    }
  }

  /** `!s.trim()` holds exactly when `s` is blank. */
  lemma TrimEmptyIff(s: string)
    ensures Trim(s) == [] <==> AllSpace(s)
  {
    var t := TrimStart(s);
    TrimStartSpec(s);
    TrimEndSpec(t);
    var k := |s| - |t|;
    if Trim(s) == [] {
      assert AllSpace(t) by {
        assert t[|TrimEnd(t)|..] == t;
      }
      assert t == [];
      forall i | 0 <= i < |s| ensures IsSpace(s[i]) {
        assert s[..k][i] == s[i];
      }
    }
  }

  /** A trimmed string is a fixed point of `trim`. */
  lemma TrimFixed(s: string)
    requires IsTrimmed(s)
    ensures Trim(s) == s
  {
  }

  /** `parts.map(v => v.trim())`. */
  function TrimAll(parts: seq<string>): (r: seq<string>)
    ensures |r| == |parts|
    ensures forall k :: 0 <= k < |r| ==> r[k] == Trim(parts[k])
  {
    seq(|parts|, k requires 0 <= k < |parts| => Trim(parts[k]))
  }

  /** `filter(Boolean)` on strings: the non-empty ones pass. */
  function NonEmpty(): string -> bool
  {
    (s: string) => s != ""
  }

  // ------------------------------------------------------------- length

  /** A character outside the Basic Multilingual Plane, which UTF-16
      stores as a surrogate pair. */
  predicate Astral(c: char) { c as int > 0xFFFF }

  /** JavaScript's `s.length`: the number of UTF-16 code units, two for
      each astral character and one for every other. */
  function Utf16Length(s: string): (r: nat)
    ensures |s| <= r <= 2 * |s|
    ensures r == |s| <==> forall i :: 0 <= i < |s| ==> !Astral(s[i])
  {
    if s == [] then 0
    else
      assert forall i :: 1 <= i < |s| ==> s[i] == s[1..][i - 1];
      (if Astral(s[0]) then 2 else 1) + Utf16Length(s[1..])
  }

  /** The length of a concatenation is the sum of the lengths. */
  lemma {:induction false} Utf16LengthAppend(a: string, b: string)
    ensures Utf16Length(a + b) == Utf16Length(a) + Utf16Length(b)
  {
    if a != [] {
      assert (a + b)[1..] == a[1..] + b;
      Utf16LengthAppend(a[1..], b);
    } else {
      assert a + b == b;
    }
  }

  // -------------------------------------------------------- substrings

  predicate IsPrefix(sub: string, s: string)
  {
    |sub| <= |s| && s[..|sub|] == sub
  }

  /** `s.includes(sub)`: `sub` occurs in `s` at some position. */
  predicate Contains(s: string, sub: string)
    decreases |s|
  {
    IsPrefix(sub, s) || (s != [] && Contains(s[1..], sub))
  }

  // ---------------------------------------------------- ordering

  /** `localeCompare(a, b) <= 0`, taken as plain lexicographic order on
      code points. */
  predicate LexLe(a: string, b: string)
    decreases |a|
  {
    a == [] || (b != [] && (a[0] < b[0] || (a[0] == b[0] && LexLe(a[1..], b[1..]))))
  }

  lemma {:induction false} LexLeTotal(a: string, b: string)
    ensures LexLe(a, b) || LexLe(b, a)
    decreases |a|
  {
    if a != [] && b != [] && a[0] == b[0] {
      LexLeTotal(a[1..], b[1..]);
    }
  }

  lemma {:induction false} LexLeTransitive(a: string, b: string, c: string)
    requires LexLe(a, b) && LexLe(b, c)
    ensures LexLe(a, c)
    decreases |a|
  {
    if a != [] && b != [] && c != [] && a[0] == b[0] == c[0] {
      LexLeTransitive(a[1..], b[1..], c[1..]);
    }
  }

  // ---------------------------------------------------- split and join

  /** `s.split(d)` for a one-character separator `d`: never empty, and the
      empty string splits into one empty piece. */
  function Split(s: string, d: char): (r: seq<string>)
    ensures |r| >= 1
    ensures forall k :: 0 <= k < |r| ==> d !in r[k]
  {
    if s == [] then [""]
    else
      var rest := Split(s[1..], d);
      if s[0] == d then [""] + rest
      else [[s[0]] + rest[0]] + rest[1..]
  }

  /** `parts.join(sep)`. */
  function Join(parts: seq<string>, sep: string): string
  {
    if parts == [] then ""
    else if |parts| == 1 then parts[0]
    else parts[0] + sep + Join(parts[1..], sep)
  }

  lemma {:induction false} SplitNoSeparator(a: string, d: char)
    requires d !in a
    ensures Split(a, d) == [a]
  {
    if a != [] {
      SplitNoSeparator(a[1..], d);
      assert [a[0]] + a[1..] == a;
    }
  }

  lemma {:induction false} SplitAtSeparator(a: string, d: char, b: string)
    requires d !in a
    ensures Split(a + [d] + b, d) == [a] + Split(b, d)
  {
    if a == [] {
      assert a + [d] + b == [d] + b;
      assert ([d] + b)[1..] == b;
    } else {
      SplitAtSeparator(a[1..], d, b);
      assert (a + [d] + b)[1..] == a[1..] + [d] + b;
      assert [a[0]] + a[1..] == a;
    }
  }

  /** Joining pieces that do not contain the separator and splitting the
      result gives the pieces back (for at least one piece: `[].join(",")`
      is `""`, which splits into `[""]`). */
  lemma {:induction false} SplitJoin(parts: seq<string>, d: char)
    requires |parts| >= 1
    requires forall k :: 0 <= k < |parts| ==> d !in parts[k]
    ensures Split(Join(parts, [d]), d) == parts
  {
    if |parts| == 1 {
      SplitNoSeparator(parts[0], d);
    } else {
      SplitJoin(parts[1..], d);
      SplitAtSeparator(parts[0], d, Join(parts[1..], [d]));
      assert [parts[0]] + parts[1..] == parts;
    }
  }

  /** Splitting and joining again with the same separator restores the string. */
  lemma {:induction false} JoinSplit(s: string, d: char)
    ensures Join(Split(s, d), [d]) == s
  {
    if s != [] {
      JoinSplit(s[1..], d);
      var rest := Split(s[1..], d);
      if s[0] == d {
        assert Join([""] + rest, [d]) == "" + [d] + Join(rest, [d]);
      } else {
        var r := [[s[0]] + rest[0]] + rest[1..];
        if |rest| == 1 {
          assert Join(r, [d]) == [s[0]] + rest[0];
        } else {
          assert r[1..] == rest[1..];
          assert Join(rest, [d]) == rest[0] + [d] + Join(rest[1..], [d]);
        }
      }
    }
  }

  // -------------------------------------------------- run replacement

  /** Drops the leading run of characters satisfying `p`. */
  function SkipRun(s: string, p: char -> bool): (r: string)
    ensures |r| <= |s|
    ensures s != [] && p(s[0]) ==> |r| < |s|
  {
    if |s| > 0 && p(s[0]) then SkipRun(s[1..], p) else s
  }

  /** What is left after the run is a suffix that does not start with a
      character of the class, and only such characters were dropped. */
  lemma {:induction false} SkipRunSpec(s: string, p: char -> bool)
    ensures var r := SkipRun(s, p);
            && r == s[|s| - |r|..]
            && (forall i :: 0 <= i < |s| - |r| ==> p(s[i]))
            && (r != [] ==> !p(r[0]))
  {
    if |s| > 0 && p(s[0]) {
      SkipRunSpec(s[1..], p);
      var r := SkipRun(s, p);
      forall i | 0 <= i < |s| - |r| ensures p(s[i]) {
        if i > 0 {
          assert s[i] == s[1..][i - 1];
        }
      }
    }
  }

  /** `s.replace(/X+/g, rep)` where X is the class of characters satisfying
      `p`: every maximal run of such characters becomes one `rep`. */
  function ReplaceRuns(s: string, p: char -> bool, rep: char): (r: string)
    ensures |r| <= |s|
    ensures s != [] ==> r != [] && r[0] == if p(s[0]) then rep else s[0]
    decreases |s|
  {
    if s == [] then []
    else if p(s[0]) then [rep] + ReplaceRuns(SkipRun(s, p), p, rep)
    else [s[0]] + ReplaceRuns(s[1..], p, rep)
  }

  /** A string in which every character of the class is `rep` and stands alone. */
  predicate RunFree(s: string, p: char -> bool, rep: char)
  {
    forall i :: 0 <= i < |s| && p(s[i]) ==> s[i] == rep && (i + 1 < |s| ==> !p(s[i + 1]))
  }

  /** The result of a run replacement is run-free, so a second replacement
      has nothing left to collapse. */
  lemma {:induction false} ReplaceRunsRunFree(s: string, p: char -> bool, rep: char)
    requires p(rep)
    ensures RunFree(ReplaceRuns(s, p, rep), p, rep)
    decreases |s|
  {
    if s != [] {
      var t := if p(s[0]) then SkipRun(s, p) else s[1..];
      var rest := ReplaceRuns(t, p, rep);
      var r := ReplaceRuns(s, p, rep);
      SkipRunSpec(s, p);
      ReplaceRunsRunFree(t, p, rep);
      assert r == [if p(s[0]) then rep else s[0]] + rest;
      forall i | 0 <= i < |r| && p(r[i])
        ensures r[i] == rep && (i + 1 < |r| ==> !p(r[i + 1]))
      {
        if i > 0 {
          assert r[i] == rest[i - 1];
          if i + 1 < |r| { assert r[i + 1] == rest[i]; }
        } else if 1 < |r| {
          assert r[1] == rest[0];
        }
      }
    }
  }

  /** A run-free string is a fixed point of the run replacement. */
  lemma {:induction false} ReplaceRunsFixed(s: string, p: char -> bool, rep: char)
    requires RunFree(s, p, rep)
    ensures ReplaceRuns(s, p, rep) == s
    decreases |s|
  {
    if s == [] {
    } else if p(s[0]) {
      assert s[0] == rep;
      var t := SkipRun(s, p);
      assert t == s[1..] by {
        assert SkipRun(s, p) == SkipRun(s[1..], p);
        if |s| > 1 { assert !p(s[1..][0]); }
      }
      assert RunFree(s[1..], p, rep) by {
        forall i | 0 <= i < |s[1..]| && p(s[1..][i])
          ensures s[1..][i] == rep && (i + 1 < |s[1..]| ==> !p(s[1..][i + 1]))
        {
          assert s[1..][i] == s[i + 1];
        }
      }
      ReplaceRunsFixed(s[1..], p, rep);
    } else {
      assert RunFree(s[1..], p, rep) by {
        forall i | 0 <= i < |s[1..]| && p(s[1..][i])
          ensures s[1..][i] == rep && (i + 1 < |s[1..]| ==> !p(s[1..][i + 1]))
        {
          assert s[1..][i] == s[i + 1];
        }
      }
      ReplaceRunsFixed(s[1..], p, rep);
    }
  }

  /** Replacing runs twice is the same as replacing them once. */
  lemma ReplaceRunsIdempotent(s: string, p: char -> bool, rep: char)
    requires p(rep)
    ensures ReplaceRuns(ReplaceRuns(s, p, rep), p, rep) == ReplaceRuns(s, p, rep)
  {
    ReplaceRunsRunFree(s, p, rep);
    ReplaceRunsFixed(ReplaceRuns(s, p, rep), p, rep);
  }

  /** The characters outside the class survive, in order and unchanged. */
  function Keep(s: string, p: char -> bool): (r: string)
    ensures |r| <= |s|
    ensures forall c :: c in r ==> c in s && !p(c)
  {
    if s == [] then []
    else if p(s[0]) then Keep(s[1..], p)
    else [s[0]] + Keep(s[1..], p)
  }

  lemma {:induction false} KeepSkipRun(s: string, p: char -> bool)
    ensures Keep(SkipRun(s, p), p) == Keep(s, p)
  {
    if |s| > 0 && p(s[0]) { KeepSkipRun(s[1..], p); }
  }

  lemma {:induction false} ReplaceRunsKeep(s: string, p: char -> bool, rep: char)
    requires p(rep)
    ensures Keep(ReplaceRuns(s, p, rep), p) == Keep(s, p)
    decreases |s|
  {
    if s == [] {
    } else if p(s[0]) {
      var t := SkipRun(s, p);
      ReplaceRunsKeep(t, p, rep);
      KeepSkipRun(s, p);
      assert Keep([rep] + ReplaceRuns(t, p, rep), p) == Keep(ReplaceRuns(t, p, rep), p);
    } else {
      ReplaceRunsKeep(s[1..], p, rep);
      assert ([s[0]] + ReplaceRuns(s[1..], p, rep))[1..] == ReplaceRuns(s[1..], p, rep);
    }
  }
}
