/** String operations of the .NET base library that the modelled code relies on,
    written out with the behaviour the code observes: ordinal `String.Replace`,
    `Split(...)` keeping the last segment, the regular expression that finds a file
    extension, and `Int32.Parse` / `Int32.ToString`. */
module Text {
  import opened Wrappers
  import opened Exceptions
  import opened Numbers

  predicate StartsWith(s: string, prefix: string)
  {
    |prefix| <= |s| && s[..|prefix|] == prefix
  }

  predicate EndsWith(s: string, suffix: string)
  {
    |suffix| <= |s| && s[|s| - |suffix|..] == suffix
  }

  /** `pat` occurs in `s` starting at position `r`. */
  predicate OccursAt(s: string, pat: string, r: int)
  {
    0 <= r && r + |pat| <= |s| && s[r..r + |pat|] == pat
  }

  // ---------------------------------------------------------------------------
  // String.Replace(oldValue, newValue): every non-overlapping occurrence, left to
  // right, ordinal comparison.  .NET throws ArgumentException for an empty
  // `oldValue`; callers model that case themselves.
  // ---------------------------------------------------------------------------

  function ReplaceAll(s: string, pat: string, rep: string): (r: string)
    requires |pat| > 0
    ensures rep == pat ==> r == s
    ensures |rep| == |pat| ==> |r| == |s|
    decreases |s|
  {
    if |s| < |pat| then s
    else if s[..|pat|] == pat then rep + ReplaceAll(s[|pat|..], pat, rep)
    else [s[0]] + ReplaceAll(s[1..], pat, rep)
  }

  lemma ReplaceAllSkip(s: string, pat: string, rep: string)
    requires 0 < |pat| <= |s| && s[0] != pat[0]
    ensures ReplaceAll(s, pat, rep) == [s[0]] + ReplaceAll(s[1..], pat, rep)
  {
    assert s[..|pat|][0] != pat[0];
  }

  /** An occurrence at the front is replaced. */
  lemma ReplaceAllFront(b: string, pat: string, rep: string)
    requires |pat| > 0
    ensures ReplaceAll(pat + b, pat, rep) == rep + ReplaceAll(b, pat, rep)
  {
    var s := pat + b;
    assert s[..|pat|] == pat && s[|pat|..] == b;
  }

  /** A prefix none of whose characters can start the pattern is copied unchanged. */
  lemma {:induction false} ReplaceAllSkipsPrefix(a: string, b: string, pat: string, rep: string)
    requires |pat| > 0
    requires forall i :: 0 <= i < |a| ==> a[i] != pat[0]
    ensures ReplaceAll(a + b, pat, rep) == a + ReplaceAll(b, pat, rep)
    decreases |a|
  {
    if |a| > 0 {
      var s := a + b;
      assert s[0] == a[0] && s[1..] == a[1..] + b;
      ReplaceAllSkipsPrefix(a[1..], b, pat, rep);
      if |s| >= |pat| {
        ReplaceAllSkip(s, pat, rep);
        assert ReplaceAll(s, pat, rep) == [a[0]] + (a[1..] + ReplaceAll(b, pat, rep));
        assert [a[0]] + (a[1..] + ReplaceAll(b, pat, rep)) == a + ReplaceAll(b, pat, rep);
      } else {
        assert ReplaceAll(s, pat, rep) == s && ReplaceAll(b, pat, rep) == b;
      }
    } else {
      assert a + b == b;
    }
  }

  /** Two back-to-back occurrences after a prefix that cannot start the pattern
      are both replaced. */
  lemma ReplaceAllTwice(stem: string, pat: string, rep: string)
    requires |pat| > 0
    requires forall i :: 0 <= i < |stem| ==> stem[i] != pat[0]
    ensures ReplaceAll(stem + pat + pat, pat, rep) == stem + rep + rep
  {
    ReplaceAllFront([], pat, rep);
    assert pat + [] == pat;
    ReplaceAllFront(pat, pat, rep);
    ReplaceAllSkipsPrefix(stem, pat + pat, pat, rep);
    assert stem + pat + pat == stem + (pat + pat);
    assert stem + (rep + (rep + [])) == stem + rep + rep;
  }

  /** An occurrence in a suffix of `s` is an occurrence in `s`, shifted. */
  lemma OccursAtShift(s: string, k: nat, pat: string, r: int)
    requires k <= |s|
    ensures OccursAt(s[k..], pat, r) ==> OccursAt(s, pat, r + k)
  {
    if OccursAt(s[k..], pat, r) {
      assert s[k..][r..r + |pat|] == s[r + k..r + k + |pat|];
    }
  }

  /** An occurrence in a prefix of `s` is an occurrence in `s`. */
  lemma OccursInPrefix(s: string, k: nat, pat: string, r: int)
    requires k <= |s|
    ensures OccursAt(s[..k], pat, r) ==> OccursAt(s, pat, r)
  {
    if OccursAt(s[..k], pat, r) {
      assert s[..k][r..r + |pat|] == s[r..r + |pat|];
    }
  }

  /** Replace changes nothing in a string where the pattern does not occur. */
  lemma {:induction false} ReplaceAllAbsent(s: string, pat: string, rep: string)
    requires |pat| > 0
    requires forall r :: !OccursAt(s, pat, r)
    ensures ReplaceAll(s, pat, rep) == s
    decreases |s|
  {
    if |s| >= |pat| {
      assert !OccursAt(s, pat, 0);
      forall r ensures !OccursAt(s[1..], pat, r) {
        OccursAtShift(s, 1, pat, r);
      }
      ReplaceAllAbsent(s[1..], pat, rep);
    }
  }

  /** When `s` ends with `pat` and no earlier occurrence overlaps that final one,
      the left-to-right scan reaches the final occurrence and replaces it. */
  lemma {:induction false} ReplaceAllEndsWith(s: string, pat: string, rep: string)
    requires |pat| > 0 && EndsWith(s, pat)
    requires forall r :: |s| - 2 * |pat| < r < |s| - |pat| ==> !OccursAt(s, pat, r)
    ensures EndsWith(ReplaceAll(s, pat, rep), rep)
    decreases |s|
  {
    if |s| == |pat| {
      assert s[..|pat|] == pat;
      assert ReplaceAll(s, pat, rep) == rep + ReplaceAll(s[|pat|..], pat, rep);
      assert ReplaceAll(s[|pat|..], pat, rep) == "";
    } else if s[..|pat|] == pat {
      assert OccursAt(s, pat, 0);
      assert |s| >= 2 * |pat|;
      var t := s[|pat|..];
      assert ReplaceAll(s, pat, rep) == rep + ReplaceAll(t, pat, rep);
      SuffixKeepsEnd(s, |pat|, pat);
      ReplaceAllEndsWith(t, pat, rep);
      EndsWithPrepend(rep, ReplaceAll(t, pat, rep), rep);
    } else {
      var t := s[1..];
      assert ReplaceAll(s, pat, rep) == [s[0]] + ReplaceAll(t, pat, rep);
      SuffixKeepsEnd(s, 1, pat);
      ReplaceAllEndsWith(t, pat, rep);
      EndsWithPrepend([s[0]], ReplaceAll(t, pat, rep), rep);
    }
  }

  /** Dropping a prefix of length k, short of the final occurrence, keeps that
      occurrence and the absence of overlapping ones before it. */
  lemma SuffixKeepsEnd(s: string, k: nat, pat: string)
    requires |pat| > 0 && EndsWith(s, pat) && k + |pat| <= |s|
    requires forall r :: |s| - 2 * |pat| < r < |s| - |pat| ==> !OccursAt(s, pat, r)
    ensures EndsWith(s[k..], pat)
    ensures forall r :: |s[k..]| - 2 * |pat| < r < |s[k..]| - |pat| ==> !OccursAt(s[k..], pat, r)
  {
    var t := s[k..];
    assert t[|t| - |pat|..] == s[|s| - |pat|..];
    forall r | |t| - 2 * |pat| < r < |t| - |pat| ensures !OccursAt(t, pat, r) {
      OccursAtShift(s, k, pat, r);
    }
  }

  lemma EndsWithPrepend(a: string, w: string, suffix: string)
    requires EndsWith(w, suffix)
    ensures EndsWith(a + w, suffix)
  {
    assert (a + w)[|a + w| - |suffix|..] == w[|w| - |suffix|..];
  }

  // ---------------------------------------------------------------------------
  // Split(sep) followed by taking the last element, and ToLower.
  // ---------------------------------------------------------------------------

  /** The last element of `s.Split(sep)`: the longest suffix of `s` free of `sep`. */
  function LastSegment(s: string, sep: char): (r: string)
    ensures forall i :: 0 <= i < |r| ==> r[i] != sep
    ensures EndsWith(s, r)
    ensures |r| == |s| || s[|s| - |r| - 1] == sep
    decreases |s|
  {
    if |s| == 0 then ""
    else if s[|s| - 1] == sep then ""
    else
      var front := LastSegment(s[..|s| - 1], sep);
      SnocSegment(s, front, sep);
      front + [s[|s| - 1]]
  }

  /** The last segment of all but the last character, extended by that
      character when it is not the separator, is the last segment. */
  lemma SnocSegment(s: string, t: string, sep: char)
    requires |s| > 0 && s[|s| - 1] != sep
    requires forall i :: 0 <= i < |t| ==> t[i] != sep
    requires EndsWith(s[..|s| - 1], t)
    requires |t| == |s| - 1 || s[..|s| - 1][|s| - 1 - |t| - 1] == sep
    ensures var r := t + [s[|s| - 1]];
            && (forall i :: 0 <= i < |r| ==> r[i] != sep)
            && EndsWith(s, r)
            && (|r| == |s| || s[|s| - |r| - 1] == sep)
  {
    EndsWithSnoc(s, t);
  }

  /** A suffix of all but the last character, extended by that character, is a
      suffix. */
  lemma EndsWithSnoc(s: string, t: string)
    requires |s| > 0 && EndsWith(s[..|s| - 1], t)
    ensures EndsWith(s, t + [s[|s| - 1]])
    ensures |t| < |s| - 1 ==> s[|s| - |t| - 2] == s[..|s| - 1][|s| - 1 - |t| - 1]
  {
    assert s[|s| - |t| - 1..] == s[..|s| - 1][|s| - 1 - |t|..] + [s[|s| - 1]];
  }

  /** `s.Split(sep)`: the segments between the separators, in order. */
  function Split(s: string, sep: char): (r: seq<string>)
    ensures |r| >= 1
    ensures forall k :: 0 <= k < |r| ==> sep !in r[k]
    decreases |s|
  {
    if |s| == 0 then [""]
    else
      var rest := Split(s[1..], sep);
      if s[0] == sep then [""] + rest
      else [[s[0]] + rest[0]] + rest[1..]
  }

  /** A string free of the separator is its own only segment. */
  lemma {:induction false} SplitNoSep(s: string, sep: char)
    requires sep !in s
    ensures Split(s, sep) == [s]
    decreases |s|
  {
    if |s| > 0 {
      assert sep !in s[1..] by {
        forall k | 0 <= k < |s[1..]| ensures s[1..][k] != sep { assert s[1..][k] == s[k + 1]; }
      }
      SplitNoSep(s[1..], sep);
      assert [s[0]] + s[1..] == s;
    }
  }

  /** A separator-free prefix followed by the separator is the first segment. */
  lemma {:induction false} SplitJoin(a: string, sep: char, b: string)
    requires sep !in a
    ensures Split(a + [sep] + b, sep) == [a] + Split(b, sep)
    decreases |a|
  {
    var s := a + [sep] + b;
    if |a| == 0 {
      assert s[1..] == b;
    } else {
      assert s[1..] == a[1..] + [sep] + b;
      assert sep !in a[1..] by {
        forall k | 0 <= k < |a[1..]| ensures a[1..][k] != sep { assert a[1..][k] == a[k + 1]; }
      }
      SplitJoin(a[1..], sep, b);
      assert [a[0]] + a[1..] == a;
    }
  }

  function LowerChar(c: char): char
  {
    if 'A' <= c <= 'Z' then (c as int + 32) as char else c
  }

  /** `ToLower()` restricted to ASCII letters. */
  function ToLowerAscii(s: string): (r: string)
    ensures |r| == |s|
    ensures forall i :: 0 <= i < |s| ==> r[i] == LowerChar(s[i])
  {
    seq(|s|, i requires 0 <= i < |s| => LowerChar(s[i]))
  }

  // ---------------------------------------------------------------------------
  // The regular expression \.(?:.(?!\.))+$ used to find a file extension: a dot,
  // then one or more characters that are not line feeds, each not followed by a
  // dot, then `$`.  Without RegexOptions, `$` matches at the end of the string and
  // also just before a final line feed; since `.` never matches a line feed, a
  // match starting at p is u[p..LineEnd(u)], and after its second character it
  // holds no dot.
  // ---------------------------------------------------------------------------

  /** Where a match can end: the end of the string, or just before a final
      line feed. */
  function LineEnd(u: string): (e: nat)
    ensures e <= |u|
    ensures u[e..] == "" || u[e..] == "\n"
    ensures u[e..] == "\n" <==> EndsWith(u, "\n")
  {
    if |u| > 0 && u[|u| - 1] == '\n' then
      assert u[|u| - 1..] == "\n";
      |u| - 1
    else
      assert |u| > 0 ==> u[|u| - 1..] == [u[|u| - 1]];
      |u|
  }

  predicate ExtensionAt(u: string, p: int)
  {
    var e := LineEnd(u);
    && 0 <= p && p + 1 < e && u[p] == '.'
    && (forall q :: p < q < e ==> u[q] != '\n')
    && (forall q :: p + 1 < q < e ==> u[q] != '.')
  }

  /** The leftmost match at or after position `p`; "" when there is none. */
  function ExtensionFrom(u: string, p: nat): (r: string)
    ensures r == "" <==> forall q :: p <= q < |u| ==> !ExtensionAt(u, q)
    ensures r != "" ==> exists q :: p <= q < |u| && ExtensionAt(u, q) && r == u[q..LineEnd(u)]
                          && forall q' :: p <= q' < q ==> !ExtensionAt(u, q')
    decreases |u| - p
  {
    if p >= |u| then ""
    else if ExtensionAt(u, p) then u[p..LineEnd(u)]
    else ExtensionFrom(u, p + 1)
  }

  /** `Regex(@"\.(?:.(?!\.))+$").Match(u).Value`. */
  function ExtensionMatch(u: string): (m: string)
    ensures m == "" <==> forall q :: 0 <= q < |u| ==> !ExtensionAt(u, q)
    ensures m != "" ==> exists q :: 0 <= q < |u| && ExtensionAt(u, q) && m == u[q..LineEnd(u)]
                          && forall q' :: 0 <= q' < q ==> !ExtensionAt(u, q')
  {
    ExtensionFrom(u, 0)
  }

  /** The matched extension starts with a dot, holds no line feed, and ends the
      URI or the URI's last line: it is followed by nothing or by the final
      line feed. */
  lemma ExtensionMatchIsSuffix(u: string)
    ensures var m := ExtensionMatch(u);
            m != "" ==> EndsWith(u[..LineEnd(u)], m) && EndsWith(u, m + u[LineEnd(u)..])
                        && |m| >= 2 && m[0] == '.'
                        && (forall i :: 2 <= i < |m| ==> m[i] != '.')
                        && (forall i :: 0 <= i < |m| ==> m[i] != '\n')
  {
    var m := ExtensionMatch(u);
    if m != "" {
      var e := LineEnd(u);
      var q :| 0 <= q < |u| && ExtensionAt(u, q) && m == u[q..e];
      DotSuffix(u, q, e);
    }
  }

  /** The slice from a dot at `q` to `e` ends `u[..e]`, and with `u[e..]` after
      it ends `u`; it inherits the dot-free and line-feed-free tail. */
  lemma DotSuffix(u: string, q: int, e: int)
    requires 0 <= q && q + 1 < e <= |u| && u[q] == '.'
    requires forall p :: q < p < e ==> u[p] != '\n'
    requires forall p :: q + 1 < p < e ==> u[p] != '.'
    ensures var m := u[q..e];
            && EndsWith(u[..e], m) && EndsWith(u, m + u[e..])
            && |m| >= 2 && m[0] == '.'
            && (forall i :: 2 <= i < |m| ==> m[i] != '.')
            && (forall i :: 0 <= i < |m| ==> m[i] != '\n')
  {
    var m := u[q..e];
    assert u[..e][e - |m|..] == m;
    assert u[|u| - |m + u[e..]|..] == m + u[e..];
    forall i | 0 <= i < |m| ensures m[i] == u[q + i] {
    }
  }

  /** An earlier occurrence of the matched extension can overlap the final one
      only when the extension is "..". */
  lemma {:induction false} ExtensionMatchNoOverlap(u: string)
    requires ExtensionMatch(u) != "" && ExtensionMatch(u) != ".."
    ensures var m := ExtensionMatch(u); var e := LineEnd(u);
            forall r :: e - 2 * |m| < r < e - |m| ==> !OccursAt(u, m, r)
  {
    var m := ExtensionMatch(u);
    var e := LineEnd(u);
    var p :| 0 <= p < |u| && ExtensionAt(u, p) && m == u[p..e];
    forall r | e - 2 * |m| < r < e - |m| ensures !OccursAt(u, m, r) {
      NoEarlierOverlap(u, p, r);
    }
  }

  /** The extension matched at p cannot also occur at a position r that overlaps
      it: the dot at u[p] sits at offset d = p - r of the candidate occurrence,
      and the extension has no dot at offset d >= 2, and at offset 1 either no
      dot or, with a dot there, none at offset 2. */
  lemma NoEarlierOverlap(u: string, p: int, r: int)
    requires ExtensionAt(u, p) && u[p..LineEnd(u)] != ".."
    requires p - |u[p..LineEnd(u)]| < r < p
    ensures !OccursAt(u, u[p..LineEnd(u)], r)
  {
    var m := u[p..LineEnd(u)];
    assert m[0] == '.';
    if |m| == 2 {
      TwoCharNotDots(m);
    }
    if 0 <= r {
      var w := u[r..r + |m|];
      var d := p - r;
      var i := if d >= 2 then d else if m[1] != '.' then 1 else 2;
      assert m[i] == u[p + i];
      assert w[i] != m[i];
    }
  }

  /** A two-character extension other than ".." has no second dot. */
  lemma TwoCharNotDots(m: string)
    requires |m| == 2 && m[0] == '.' && m != ".."
    ensures m[1] != '.'
  {
    assert m == [m[0], m[1]];
  }

  /** Replacing the matched extension by ".basis" leaves a URI that ends in
      ".basis" (followed by the final line feed when there is one), unless the
      extension is "..". */
  lemma RenameEndsWithBasis(u: string)
    requires ExtensionMatch(u) != "" && ExtensionMatch(u) != ".."
    ensures var renamed := ReplaceAll(u, ExtensionMatch(u), ".basis");
            && (EndsWith(u, "\n") ==> EndsWith(renamed, ".basis\n"))
            && (!EndsWith(u, "\n") ==> EndsWith(renamed, ".basis"))
  {
    var m := ExtensionMatch(u);
    var e := LineEnd(u);
    ExtensionMatchIsSuffix(u);
    ExtensionMatchNoOverlap(u);
    LineRenameEndsWithBasis(u, e, m);
  }

  /** The same on plain strings: the line `u[..e]` ends in `m`, which occurs
      nowhere overlapping that final occurrence, and is followed by nothing or a
      final line feed. */
  lemma LineRenameEndsWithBasis(u: string, e: nat, m: string)
    requires e <= |u| && (u[e..] == "" || u[e..] == "\n") && (u[e..] == "\n" <==> EndsWith(u, "\n"))
    requires |m| > 0 && EndsWith(u[..e], m) && forall i :: 0 <= i < |m| ==> m[i] != '\n'
    requires forall r :: e - 2 * |m| < r < e - |m| ==> !OccursAt(u, m, r)
    ensures EndsWith(u, "\n") ==> EndsWith(ReplaceAll(u, m, ".basis"), ".basis\n")
    ensures !EndsWith(u, "\n") ==> EndsWith(ReplaceAll(u, m, ".basis"), ".basis")
  {
    var b := u[..e];
    forall r | |b| - 2 * |m| < r < |b| - |m| ensures !OccursAt(b, m, r) {
      OccursInPrefix(u, e, m, r);
    }
    ReplaceAllEndsWith(b, m, ".basis");
    if EndsWith(u, "\n") {
      assert u == b + "\n";
      ReplaceAllBeforeNewline(b, m, ".basis");
      var w := ReplaceAll(b, m, ".basis");
      assert (w + "\n")[|w + "\n"| - 7..] == w[|w| - 6..] + "\n";
    } else {
      assert b == u;
    }
  }

  /** A pattern without line feeds never covers a final line feed, so Replace
      leaves it in place. */
  lemma {:induction false} ReplaceAllBeforeNewline(x: string, pat: string, rep: string)
    requires |pat| > 0 && forall i :: 0 <= i < |pat| ==> pat[i] != '\n'
    ensures ReplaceAll(x + "\n", pat, rep) == ReplaceAll(x, pat, rep) + "\n"
    decreases |x|
  {
    var s := x + "\n";
    if |s| < |pat| {
    } else if s[..|pat|] == pat {
      assert pat[|pat| - 1] != '\n';
      assert s[..|pat|][|pat| - 1] == s[|pat| - 1];
      assert x[..|pat|] == pat;
      assert s[|pat|..] == x[|pat|..] + "\n";
      ReplaceAllBeforeNewline(x[|pat|..], pat, rep);
      assert rep + (ReplaceAll(x[|pat|..], pat, rep) + "\n") == (rep + ReplaceAll(x[|pat|..], pat, rep)) + "\n";
    } else if |x| < |pat| {
      assert ReplaceAll(s[1..], pat, rep) == s[1..];
      assert [s[0]] + s[1..] == s;
    } else {
      assert x[..|pat|] == s[..|pat|];
      assert s[1..] == x[1..] + "\n";
      ReplaceAllBeforeNewline(x[1..], pat, rep);
      assert [x[0]] + (ReplaceAll(x[1..], pat, rep) + "\n") == ([x[0]] + ReplaceAll(x[1..], pat, rep)) + "\n";
    }
  }

  /** A URI ending in a line feed: `$` matches before it, and the rename keeps it. */
  lemma NewlineRename()
    ensures ExtensionMatch("a.png\n") == ".png"
    ensures ReplaceAll("a.png\n", ".png", ".basis") == "a.basis\n"
  {
    NewlineMatch();
    NewlineReplace();
  }

  /** `$` matches before the final line feed of "a.png\n". */
  lemma NewlineMatch()
    ensures ExtensionMatch("a.png\n") == ".png"
  {
    var u := "a.png\n";
    assert LineEnd(u) == 5;
    assert !ExtensionAt(u, 0) && ExtensionAt(u, 1);
    assert ExtensionFrom(u, 0) == ExtensionFrom(u, 1) == u[1..5];
    assert u[1..5] == ".png";
  }

  /** Replace keeps the final line feed of "a.png\n". */
  lemma NewlineReplace()
    ensures ReplaceAll("a.png\n", ".png", ".basis") == "a.basis\n"
  {
    ReplaceAllBeforeNewline("a.png", ".png", ".basis");
    ReplaceAllFront([], ".png", ".basis");
    assert ".png" + [] == ".png";
    ReplaceAllSkipsPrefix("a", ".png", ".png", ".basis");
    assert "a" + ".png" == "a.png";
    assert "a" + (".basis" + []) + "\n" == "a.basis\n";
  }

  /** The ".." exception is real: "a..." matches ".." at position 2, but the scan
      replaces the occurrence at position 1 first. */
  lemma TrailingDotsRename()
    ensures ExtensionMatch("a...") == ".."
    ensures ReplaceAll("a...", "..", ".basis") == "a.basis."
  {
    TrailingDotsMatch();
    TrailingDotsReplace();
  }

  lemma TrailingDotsMatch()
    ensures ExtensionMatch("a...") == ".."
  {
    assert !ExtensionAt("a...", 0);
    assert !ExtensionAt("a...", 1) by { assert "a..."[3] == '.'; }
    assert ExtensionAt("a...", 2);
    assert ExtensionFrom("a...", 0) == ExtensionFrom("a...", 1) == ExtensionFrom("a...", 2);
  }

  lemma TrailingDotsReplace()
    ensures ReplaceAll("a...", "..", ".basis") == "a.basis."
  {
    assert "a..."[..2][0] == 'a';
    assert "a..."[1..] == "..." && "..."[..2] == ".." && "..."[2..] == ".";
    assert ReplaceAll(".", "..", ".basis") == ".";
    assert ReplaceAll("...", "..", ".basis") == ".basis" + ".";
    assert ReplaceAll("a...", "..", ".basis") == "a" + ReplaceAll("...", "..", ".basis");
  }

  // ---------------------------------------------------------------------------
  // Int32.Parse(string) with the default NumberStyles.Integer: optional leading
  // and trailing white space, an optional sign, then decimal digits.
  // ---------------------------------------------------------------------------

  /** White space as NumberStyles allows it: U+0009 to U+000D and U+0020. */
  predicate IsWhite(c: char)
  {
    c == ' ' || '\t' <= c <= '\r'
  }

  predicate IsDigit(c: char)
  {
    '0' <= c <= '9'
  }

  predicate AllDigits(s: string)
  {
    forall i :: 0 <= i < |s| ==> IsDigit(s[i])
  }

  function DigitValue(c: char): nat
    requires IsDigit(c)
  {
    c as int - '0' as int
  }

  /** The value of a run of decimal digits, most significant first. */
  function DigitsValue(ds: string): nat
    requires AllDigits(ds)
    decreases |ds|
  {
    if |ds| == 0 then 0
    else DigitsValue(ds[..|ds| - 1]) * 10 + DigitValue(ds[|ds| - 1])
  }

  function TrimStart(s: string): (r: string)
    ensures EndsWith(s, r)
    ensures |r| == 0 || !IsWhite(r[0])
    ensures forall i :: 0 <= i < |s| - |r| ==> IsWhite(s[i])
    decreases |s|
  {
    if |s| > 0 && IsWhite(s[0]) then TrimStart(s[1..]) else s
  }

  function TrimEnd(s: string): (r: string)
    ensures StartsWith(s, r)
    ensures |r| == 0 || !IsWhite(r[|r| - 1])
    ensures forall i :: |r| <= i < |s| ==> IsWhite(s[i])
    decreases |s|
  {
    if |s| > 0 && IsWhite(s[|s| - 1]) then TrimEnd(s[..|s| - 1]) else s
  }

  /** `Int32.Parse(s)`: FormatException for text that is not an integer,
      OverflowException for an integer outside the 32-bit range. */
  function ParseInt32(s: string): (r: Result<int, Exception>)
    ensures r.Success? ==> Int32Min <= r.value <= Int32Max
  {
    var t := TrimEnd(TrimStart(s));
    var signed := |t| > 0 && (t[0] == '-' || t[0] == '+');
    var ds := if signed then t[1..] else t;
    if |ds| == 0 || !AllDigits(ds) then Failure(Format(s))
    else
      var magnitude: int := DigitsValue(ds);
      var v := if signed && t[0] == '-' then -magnitude else magnitude;
      if Int32Min <= v <= Int32Max then Success(v) else Failure(Overflow(s))
  }

  /** A bare run of digits parses to its value, or overflows. */
  lemma ParseDigits(ds: string)
    requires |ds| > 0 && AllDigits(ds)
    ensures DigitsValue(ds) <= Int32Max ==> ParseInt32(ds) == Success(DigitsValue(ds))
    ensures DigitsValue(ds) > Int32Max ==> ParseInt32(ds) == Failure(Overflow(ds))
  {
    assert !IsWhite(ds[0]) && !IsWhite(ds[|ds| - 1]);
    assert TrimStart(ds) == ds;
    assert TrimEnd(ds) == ds;
  }

  /** The empty match: Int32.Parse("") is a FormatException. */
  lemma ParseEmpty()
    ensures ParseInt32("") == Failure(Format(""))
  {
  }

  function DigitChar(d: nat): (c: char)
    requires d < 10
    ensures IsDigit(c) && DigitValue(c) == d
  {
    ('0' as int + d) as char
  }

  /** `n.ToString()` for a non-negative integer. */
  function NatToString(n: nat): string
    decreases n
  {
    if n < 10 then [DigitChar(n)] else NatToString(n / 10) + [DigitChar(n % 10)]
  }

  /** `n.ToString()` with the invariant culture's minus sign. */
  function IntToString(n: int): string
  {
    if n < 0 then "-" + NatToString(-n) else NatToString(n)
  }

  lemma {:induction false} NatToStringDigits(n: nat)
    ensures |NatToString(n)| > 0 && AllDigits(NatToString(n))
    ensures DigitsValue(NatToString(n)) == n
    decreases n
  {
    if n >= 10 {
      NatToStringDigits(n / 10);
      var s := NatToString(n);
      assert s[..|s| - 1] == NatToString(n / 10);
    }
  }

  /** Printing a 32-bit integer and parsing it back gives the integer. */
  lemma ParseIntToString(n: int)
    requires Int32Min <= n <= Int32Max
    ensures ParseInt32(IntToString(n)) == Success(n)
  {
    var s := IntToString(n);
    var digits := NatToString(if n < 0 then -n else n);
    NatToStringDigits(if n < 0 then -n else n);
    assert !IsWhite(s[0]) && !IsWhite(s[|s| - 1]);
    assert TrimStart(s) == s;
    assert TrimEnd(s) == s;
    if n < 0 {
      assert s[1..] == digits;
    }
  }

  // ---------------------------------------------------------------------------
  // The regular expression (?<="source":\s*)[0-9]+ : the leftmost run of digits
  // preceded by the key `"source":` and optional white space.
  // ---------------------------------------------------------------------------

  const SourceKey: string := "\"source\":"

  /** The regular expressions' `\s`: [\f\n\r\t\v\x85\p{Z}], that is U+0009 to
      U+000D, U+0085 and the Unicode space, line and paragraph separators. */
  predicate RegexWhite(c: char)
  {
    || '\t' <= c <= '\r' || c == ' ' || c == '\U{85}' || c == '\U{A0}' || c == '\U{1680}'
    || '\U{2000}' <= c <= '\U{200A}' || c == '\U{2028}' || c == '\U{2029}' || c == '\U{202F}'
    || c == '\U{205F}' || c == '\U{3000}'
  }

  /** The start of the run of `\s` white space that ends at position i. */
  function WhiteRunStart(s: string, i: nat): (j: nat)
    requires i <= |s|
    ensures j <= i && forall k :: j <= k < i ==> RegexWhite(s[k])
    ensures j == 0 || !RegexWhite(s[j - 1])
    decreases i
  {
    if i > 0 && RegexWhite(s[i - 1]) then WhiteRunStart(s, i - 1) else i
  }

  /** The look-behind holds at position i.  Its `\s*` can only stop right after the
      key's closing ':', which is not white space, so it spans the whole run of
      white space before position i. */
  predicate SourceKeyBefore(s: string, i: nat)
    requires i <= |s|
  {
    EndsWith(s[..WhiteRunStart(s, i)], SourceKey)
  }

  predicate SourceMatchAt(s: string, i: int)
  {
    0 <= i < |s| && IsDigit(s[i]) && SourceKeyBefore(s, i)
  }

  /** The greedy run of digits starting at position i. */
  function DigitRun(s: string, i: nat): (r: string)
    requires i <= |s|
    ensures AllDigits(r) && StartsWith(s[i..], r)
    ensures i + |r| == |s| || !IsDigit(s[i + |r|])
    decreases |s| - i
  {
    if i < |s| && IsDigit(s[i]) then [s[i]] + DigitRun(s, i + 1) else ""
  }

  function SourceIdFrom(s: string, p: nat): (r: string)
    ensures r == "" <==> forall i :: p <= i < |s| ==> !SourceMatchAt(s, i)
    ensures r != "" ==> exists i :: p <= i < |s| && SourceMatchAt(s, i) && r == DigitRun(s, i)
                          && forall i' :: p <= i' < i ==> !SourceMatchAt(s, i')
    decreases |s| - p
  {
    if p >= |s| then ""
    else if SourceMatchAt(s, p) then DigitRun(s, p)
    else SourceIdFrom(s, p + 1)
  }

  /** `Regex(@"(?<=""source"":\s*)[0-9]+").Match(s).Value`; "" when nothing matches. */
  function SourceIdMatch(s: string): (m: string)
    ensures m == "" <==> forall i :: 0 <= i < |s| ==> !SourceMatchAt(s, i)
    ensures m != "" ==> exists i :: 0 <= i < |s| && SourceMatchAt(s, i) && m == DigitRun(s, i)
                          && forall i' :: 0 <= i' < i ==> !SourceMatchAt(s, i')
  {
    SourceIdFrom(s, 0)
  }

  /** In `"source": <n>` the match is the printed number. */
  lemma {:induction false} SourceIdMatchOfKey(n: nat, rest: string)
    requires |rest| == 0 || !IsDigit(rest[0])
    ensures SourceIdMatch(SourceKey + " " + NatToString(n) + rest) == NatToString(n)
  {
    var digits := NatToString(n);
    NatToStringDigits(n);
    var s := SourceKey + " " + digits + rest;
    var i := |SourceKey| + 1;
    assert s[..|SourceKey|] == SourceKey;
    assert WhiteRunStart(s, i) == |SourceKey|;
    assert EndsWith(s[..|SourceKey|], SourceKey);
    assert SourceMatchAt(s, i);
    forall i' | 0 <= i' < i ensures !SourceMatchAt(s, i') {
      assert !IsDigit(s[i']);
    }
    DigitRunOf(s, i, digits);
    SourceIdFromSkips(s, 0, i);
  }

  lemma {:induction false} DigitRunOf(s: string, i: nat, digits: string)
    requires i + |digits| <= |s| && s[i..i + |digits|] == digits && AllDigits(digits)
    requires i + |digits| == |s| || !IsDigit(s[i + |digits|])
    ensures DigitRun(s, i) == digits
    decreases |digits|
  {
    if |digits| > 0 {
      assert s[i + 1..i + |digits|] == digits[1..];
      DigitRunOf(s, i + 1, digits[1..]);
      assert digits == [digits[0]] + digits[1..];
    }
  }

  lemma {:induction false} SourceIdFromSkips(s: string, p: nat, i: nat)
    requires p <= i && SourceMatchAt(s, i)
    requires forall i' :: p <= i' < i ==> !SourceMatchAt(s, i')
    ensures SourceIdFrom(s, p) == DigitRun(s, i)
    decreases i - p
  {
    if p < i {
      assert !SourceMatchAt(s, p);
      SourceIdFromSkips(s, p + 1, i);
      assert SourceIdFrom(s, p) == SourceIdFrom(s, p + 1);
    } else {
      assert SourceIdFrom(s, p) == DigitRun(s, p);
    }
  }
}
