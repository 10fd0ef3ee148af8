/** The few Python `str` operations the two scripts rely on, stated over
    `seq<char>`: `startswith`, `in`, `strip`, `split`, `join`, and `re.sub`
    with a literal pattern or a character class. */
module Strings {

  /** `s.startswith(p)` */
  predicate StartsWith(s: string, p: string) {
    |p| <= |s| && s[..|p|] == p
  }

  /** `p in s`: `p` occurs somewhere in `s` as a contiguous substring. */
  predicate Contains(s: string, p: string)
    decreases |s|
  {
    StartsWith(s, p) || (|s| > 0 && Contains(s[1..], p))
  }

  /** The characters for which Python's `str.isspace()` holds; these are what
      `str.strip()` with no argument removes. */
  predicate IsSpace(c: char) {
    c in SpaceChars
  }

  const SpaceChars: set<char> :=
    {'\t', '\n', '\U{000B}', '\U{000C}', '\r', '\U{001C}', '\U{001D}', '\U{001E}', '\U{001F}', ' ',
     '\U{0085}', '\U{00A0}', '\U{1680}', '\U{2000}', '\U{2001}', '\U{2002}', '\U{2003}', '\U{2004}',
     '\U{2005}', '\U{2006}', '\U{2007}', '\U{2008}', '\U{2009}', '\U{200A}', '\U{2028}', '\U{2029}',
     '\U{202F}', '\U{205F}', '\U{3000}'}

  /** `s.rstrip()`: the longest prefix of `s` that does not end in whitespace. */
  function RStripSpace(s: string): (r: string)
    ensures |r| <= |s|
  {
    if |s| > 0 && IsSpace(s[|s| - 1]) then RStripSpace(s[..|s| - 1]) else s
  }

  /** `s.lstrip(c)` for a single character `c`. */
  function LStripChar(s: string, c: char): (r: string)
    ensures |r| <= |s|
  {
    if |s| > 0 && s[0] == c then LStripChar(s[1..], c) else s
  }

  /** `s.rstrip(c)` for a single character `c`. */
  function RStripChar(s: string, c: char): (r: string)
    ensures |r| <= |s|
  {
    if |s| > 0 && s[|s| - 1] == c then RStripChar(s[..|s| - 1], c) else s
  }

  /** `s.strip(c)`: every leading and every trailing `c` removed. */
  function StripChar(s: string, c: char): (r: string)
    ensures |r| <= |s|
  {
    LStripChar(RStripChar(s, c), c)
  }

  /** `''.join(parts)`: the parts one after another. */
  function Concat(parts: seq<string>): string {
    if parts == [] then "" else parts[0] + Concat(parts[1..])
  }

  lemma {:induction false} ConcatAppend(a: seq<string>, b: seq<string>)
    ensures Concat(a + b) == Concat(a) + Concat(b)
  {
    if a == [] {
      assert a + b == b;
    } else {
      assert (a + b)[1..] == a[1..] + b;
      ConcatAppend(a[1..], b);
    }
  }

  /** `sep.join(parts)`. */
  function Join(parts: seq<string>, sep: string): string {
    if |parts| == 0 then ""
    else if |parts| == 1 then parts[0]
    else parts[0] + sep + Join(parts[1..], sep)
  }

  /** `s.split(sep)` for a one-character separator: the pieces between
      separators, always at least one (an empty string gives `['']`). */
  function Split(s: string, sep: char): (r: seq<string>)
    ensures |r| >= 1
  {
    if s == [] then [""]
    else if s[0] == sep then [""] + Split(s[1..], sep)
    else
      var t := Split(s[1..], sep);
      [[s[0]] + t[0]] + t[1..]
  }

  /** `re.sub(pat, '', s)` for a pattern with no metacharacters: every match,
      scanning left to right and not overlapping, is deleted; a deletion is
      not scanned again. */
  function RemoveAll(s: string, pat: string): (r: string)
    requires |pat| > 0
    ensures |r| <= |s|
    decreases |s|
  {
    if |s| == 0 then ""
    else if StartsWith(s, pat) then RemoveAll(s[|pat|..], pat)
    else [s[0]] + RemoveAll(s[1..], pat)
  }

  /** `re.sub(stem + c + '*', '', s)` for a `stem` with no metacharacters:
      every occurrence of `stem` together with the run of `c` right after it
      is deleted, scanning left to right. */
  function RemoveStemRuns(s: string, stem: string, c: char): (r: string)
    requires |stem| > 0
    ensures |r| <= |s|
    decreases |s|
  {
    if |s| == 0 then ""
    else if StartsWith(s, stem) then RemoveStemRuns(LStripChar(s[|stem|..], c), stem, c)
    else [s[0]] + RemoveStemRuns(s[1..], stem, c)
  }

  /** `re.sub('[...]', '', s)`: every character of the class deleted. */
  function DeleteChars(s: string, cls: set<char>): (r: string)
    ensures |r| <= |s|
  {
    if s == [] then ""
    else (if s[0] in cls then "" else [s[0]]) + DeleteChars(s[1..], cls)
  }

  /** Joining what `Split` produced with the separator gives the text back. */
  lemma {:induction false} JoinSplit(s: string, sep: char)
    ensures Join(Split(s, sep), [sep]) == s
  {
    if s == [] {
    } else if s[0] == sep {
      JoinSplit(s[1..], sep);
      assert s == [sep] + s[1..];
    } else {
      var t := Split(s[1..], sep);
      JoinSplit(s[1..], sep);
      if |t| > 1 {
        assert t[1..][0] == t[1];
        assert Join(t, [sep]) == t[0] + [sep] + Join(t[1..], [sep]);
      }
      assert s == [s[0]] + s[1..];
    }
  }

  /** No piece contains the separator. */
  lemma {:induction false} SplitPieces(s: string, sep: char)
    ensures forall i :: 0 <= i < |Split(s, sep)| ==> sep !in Split(s, sep)[i]
  {
    if s != [] {
      SplitPieces(s[1..], sep);
      var t := Split(s[1..], sep);
      if s[0] != sep {
        assert Split(s, sep)[0] == [s[0]] + t[0];
        forall i | 0 < i < |Split(s, sep)| ensures Split(s, sep)[i] == t[i] {
        }
      } else {
        forall i | 0 < i < |Split(s, sep)| ensures Split(s, sep)[i] == t[i - 1] {
        }
      }
    }
  }

  /** A text without the separator is one piece. */
  lemma {:induction false} SplitNoSep(s: string, sep: char)
    requires sep !in s
    ensures Split(s, sep) == [s]
  {
    if s != [] {
      SplitNoSep(s[1..], sep);
      assert s == [s[0]] + s[1..];
    }
  }

  /** A text without the separator, then the separator: the text is the
      first piece and the rest is split on its own. */
  lemma {:induction false} SplitAfter(a: string, sep: char, b: string)
    requires sep !in a
    ensures Split(a + [sep] + b, sep) == [a] + Split(b, sep)
  {
    var s := a + [sep] + b;
    if a == [] {
      assert s[1..] == b;
    } else {
      assert s[1..] == a[1..] + [sep] + b;
      SplitAfter(a[1..], sep, b);
      assert a == [a[0]] + a[1..];
    }
  }

  /** Splitting a join of pieces that do not contain the separator gives the
      pieces back. */
  lemma {:induction false} SplitJoin(parts: seq<string>, sep: char)
    requires |parts| > 0 && forall i :: 0 <= i < |parts| ==> sep !in parts[i]
    ensures Split(Join(parts, [sep]), sep) == parts
  {
    if |parts| == 1 {
      SplitNoSep(parts[0], sep);
    } else {
      SplitJoin(parts[1..], sep);
      SplitAfter(parts[0], sep, Join(parts[1..], [sep]));
      assert parts == [parts[0]] + parts[1..];
    }
  }

  /** The first piece is the text before the first separator, or all of the
      text when there is none. */
  lemma {:induction false} SplitFirst(s: string, sep: char)
    ensures var f := Split(s, sep)[0];
      && |f| <= |s| && f == s[..|f|] && sep !in f
      && (|f| == |s| || s[|f|] == sep)
  {
    if s != [] && s[0] != sep {
      SplitFirst(s[1..], sep);
      var t := Split(s[1..], sep);
      var f := [s[0]] + t[0];
      assert Split(s, sep)[0] == f;
      assert s == [s[0]] + s[1..];
      assert f == s[..|f|];
      assert |f| < |s| ==> s[|f|] == s[1..][|t[0]|];
    }
  }

  /** Joining two non-empty lists puts one separator between their joins. */
  lemma {:induction false} JoinAppend(a: seq<string>, b: seq<string>, sep: string)
    requires a != [] && b != []
    ensures Join(a + b, sep) == Join(a, sep) + sep + Join(b, sep)
  {
    if |a| == 1 {
      assert (a + b)[1..] == b;
    } else {
      assert (a + b)[1..] == a[1..] + b;
      JoinAppend(a[1..], b, sep);
    }
  }

  /** A text in which the pattern never occurs is left as it is. */
  lemma {:induction false} RemoveAllAbsent(s: string, pat: string)
    requires |pat| > 0 && !Contains(s, pat)
    ensures RemoveAll(s, pat) == s
    decreases |s|
  {
    if |s| > 0 {
      RemoveAllAbsent(s[1..], pat);
      assert s == [s[0]] + s[1..];
    }
  }

  /** A text in which `stem` never occurs is left as it is. */
  lemma {:induction false} RemoveStemRunsAbsent(s: string, stem: string, c: char)
    requires |stem| > 0 && !Contains(s, stem)
    ensures RemoveStemRuns(s, stem, c) == s
    decreases |s|
  {
    if |s| > 0 {
      RemoveStemRunsAbsent(s[1..], stem, c);
      assert s == [s[0]] + s[1..];
    }
  }

  /** A prefix of a text in which `p` never occurs has no `p` either. */
  lemma {:induction false} ContainsPrefix(s: string, n: nat, p: string)
    requires n <= |s| && !Contains(s, p)
    ensures !Contains(s[..n], p)
    decreases |s|
  {
    if n > 0 {
      assert s[..n][1..] == s[1..][..n - 1];
      ContainsPrefix(s[1..], n - 1, p);
    }
  }

  /** Deletion inside `g` does not reach into `t` when `stem` never occurs in
      `g` and `t` starts with a character that appears in `stem` only at its
      start: no occurrence can straddle the two. */
  lemma {:induction false} RemoveStemRunsAppend(g: string, t: string, stem: string, c: char)
    requires |stem| > 0 && !Contains(g, stem)
    requires t == [] || forall q :: 0 < q < |stem| ==> stem[q] != t[0]
    ensures RemoveStemRuns(g + t, stem, c) == g + RemoveStemRuns(t, stem, c)
    decreases |g|
  {
    if g == [] {
      assert g + t == t;
    } else {
      var s := g + t;
      assert !StartsWith(s, stem) by {
        if |g| >= |stem| {
          assert g[..|stem|] == s[..|stem|];
        } else if |stem| <= |s| {
          assert s[|g|] == t[0];
        }
      }
      assert s[1..] == g[1..] + t;
      RemoveStemRunsAppend(g[1..], t, stem, c);
    }
  }

  /** `rstrip()` removes exactly the trailing run of whitespace. */
  lemma {:induction false} RStripSpaceSpec(s: string)
    ensures var r := RStripSpace(s);
      && r == s[..|r|]
      && (r == [] || !IsSpace(r[|r| - 1]))
      && forall i :: |r| <= i < |s| ==> IsSpace(s[i])
    decreases |s|
  {
    if |s| > 0 && IsSpace(s[|s| - 1]) {
      RStripSpaceSpec(s[..|s| - 1]);
    }
  }

  /** `rstrip(c)` removes exactly the trailing run of `c`. */
  lemma {:induction false} RStripCharSpec(s: string, c: char)
    ensures var r := RStripChar(s, c);
      && r == s[..|r|]
      && (r == [] || r[|r| - 1] != c)
      && forall i :: |r| <= i < |s| ==> s[i] == c
    decreases |s|
  {
    if |s| > 0 && s[|s| - 1] == c {
      RStripCharSpec(s[..|s| - 1], c);
    }
  }

  /** `lstrip(c)` removes exactly the leading run of `c`. */
  lemma {:induction false} LStripCharSpec(s: string, c: char)
    ensures var r := LStripChar(s, c);
      && r == s[|s| - |r|..]
      && (r == [] || r[0] != c)
      && forall i :: 0 <= i < |s| - |r| ==> s[i] == c
    decreases |s|
  {
    if |s| > 0 && s[0] == c {
      LStripCharSpec(s[1..], c);
    }
  }

  /** `strip(c)` leaves no `c` at either end, and leaves a text without `c`
      untouched. */
  lemma {:induction false} StripCharSpec(s: string, c: char)
    ensures var r := StripChar(s, c);
      && (r == [] || (r[0] != c && r[|r| - 1] != c))
      && (c !in s ==> r == s)
  {
    var t := RStripChar(s, c);
    RStripCharSpec(s, c);
    LStripCharSpec(t, c);
    var r := LStripChar(t, c);
    if r != [] {
      assert r[|r| - 1] == t[|t| - 1];
    }
    if c !in s {
      assert t == s;
    }
  }

  lemma {:induction false} DeleteCharsAppend(a: string, b: string, cls: set<char>)
    ensures DeleteChars(a + b, cls) == DeleteChars(a, cls) + DeleteChars(b, cls)
  {
    if a == [] {
      assert a + b == b;
    } else {
      assert (a + b)[0] == a[0] && (a + b)[1..] == a[1..] + b;
      DeleteCharsAppend(a[1..], b, cls);
    }
  }

  /** A text with no character of the class is left as it is. */
  lemma {:induction false} DeleteCharsAbsent(s: string, cls: set<char>)
    requires forall i :: 0 <= i < |s| ==> s[i] !in cls
    ensures DeleteChars(s, cls) == s
  {
    if s != [] {
      DeleteCharsAbsent(s[1..], cls);
      assert s == [s[0]] + s[1..];
    }
  }

  /** Deleting a class of characters keeps exactly the other characters. */
  lemma {:induction false} DeleteCharsSpec(s: string, cls: set<char>)
    ensures forall c :: c in DeleteChars(s, cls) <==> c in s && c !in cls
  {
    if s != [] {
      DeleteCharsSpec(s[1..], cls);
      assert s == [s[0]] + s[1..];
    }
  }
}
