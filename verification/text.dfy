/** String facts shared by the components: the ECMAScript whitespace class,
    ASCII lower-casing, first-occurrence search, `split`/`join`, `trim`, and
    the two whitespace rewrites (`replace(/\s+/g, '_')`, `replace(/\s/g, '')`). */
module Text {
  import opened Wrappers

  /** The code points matched by the regular-expression class `\s` and removed by
      `String.prototype.trim`: ECMAScript WhiteSpace (tab, vertical tab, form feed,
      space, no-break space, byte-order mark and the Zs category) plus the
      LineTerminators (LF, CR, LS, PS). */
  predicate IsSpace(c: char) {
    || c == '\t' || c == '\n' || c == '\U{B}' || c == '\U{C}' || c == '\r' || c == ' '
    || c == '\U{A0}' || c == '\U{1680}' || ('\U{2000}' <= c <= '\U{200A}')
    || c == '\U{2028}' || c == '\U{2029}' || c == '\U{202F}' || c == '\U{205F}'
    || c == '\U{3000}' || c == '\U{FEFF}'
  }

  /** The same class written out one code point at a time: 25 code points. */
  const SpaceChars: set<char> := {
    '\t', '\n', '\U{B}', '\U{C}', '\r', ' ', '\U{A0}', '\U{1680}',
    '\U{2000}', '\U{2001}', '\U{2002}', '\U{2003}', '\U{2004}', '\U{2005}',
    '\U{2006}', '\U{2007}', '\U{2008}', '\U{2009}', '\U{200A}',
    '\U{2028}', '\U{2029}', '\U{202F}', '\U{205F}', '\U{3000}', '\U{FEFF}'
  }

  /** `IsSpace` is exactly the enumerated class: every listed code point is
      whitespace and nothing else is. */
  lemma SpaceClass(c: char)
    ensures IsSpace(c) <==> c in SpaceChars
  {
  }

  predicate NoSpace(s: string) {
    forall i :: 0 <= i < |s| ==> !IsSpace(s[i])
  }

  predicate AllSpace(s: string) {
    forall i :: 0 <= i < |s| ==> IsSpace(s[i])
  }

  lemma NoSpaceAppend(a: string, b: string)
    ensures NoSpace(a + b) <==> NoSpace(a) && NoSpace(b)
  {
    assert forall i :: 0 <= i < |b| ==> b[i] == (a + b)[|a| + i];
    assert forall i :: 0 <= i < |a| ==> a[i] == (a + b)[i];
  }

  // ---------------------------------------------------------------------------
  // Lower-casing (ASCII letters only)
  // ---------------------------------------------------------------------------

  predicate IsUpperAscii(c: char) {
    'A' <= c <= 'Z'
  }

  function LowerChar(c: char): char {
    if IsUpperAscii(c) then (c as int + 32) as char else c
  }

  /** `toLowerCase`, restricted to the ASCII letters. */
  function Lower(s: string): (r: string)
    ensures |r| == |s|
    ensures forall i :: 0 <= i < |s| ==> r[i] == LowerChar(s[i])
  {
    seq(|s|, i requires 0 <= i < |s| => LowerChar(s[i]))
  }

  /** No ASCII upper-case letter is left in `s`. */
  predicate IsLowered(s: string) {
    forall i :: 0 <= i < |s| ==> !IsUpperAscii(s[i])
  }

  lemma LoweredAppend(a: string, b: string)
    ensures IsLowered(a + b) <==> IsLowered(a) && IsLowered(b)
  {
    assert forall i :: 0 <= i < |b| ==> b[i] == (a + b)[|a| + i];
    assert forall i :: 0 <= i < |a| ==> a[i] == (a + b)[i];
  }

  lemma LowerLowers(s: string)
    ensures IsLowered(Lower(s))
    ensures Lower(Lower(s)) == Lower(s)
    ensures IsLowered(s) ==> Lower(s) == s
  {
  }

  lemma LowerAppend(a: string, b: string)
    ensures Lower(a + b) == Lower(a) + Lower(b)
  {
  }

  /** Lower-casing two words joined by `_` lower-cases each word. */
  lemma LowerAroundUnderscore(a: string, b: string)
    ensures Lower(a + "_" + b) == Lower(a) + "_" + Lower(b)
  {
  }

  /** `s` starts with the lower-case pattern `p` when case is ignored (the `i`
      flag of a regular expression anchored with `^`). */
  predicate StartsWithIgnoreCase(s: string, p: string) {
    |p| <= |s| && Lower(s[..|p|]) == p
  }

  // ---------------------------------------------------------------------------
  // Occurrence search
  // ---------------------------------------------------------------------------

  predicate OccursAt(s: string, m: string, j: int) {
    0 <= j && j + |m| <= |s| && s[j..j + |m|] == m
  }

  /** `s.indexOf(m)`: the first position at which `m` occurs, if any. */
  function IndexOf(s: string, m: string): (r: Option<nat>)
    ensures r.Some? ==> OccursAt(s, m, r.value)
    ensures r.Some? ==> forall j :: 0 <= j < r.value ==> !OccursAt(s, m, j)
    ensures r.None? ==> forall j :: !OccursAt(s, m, j)
    decreases |s|
  {
    if |s| < |m| then None
    else if s[..|m|] == m then Some(0)
    else
      match IndexOf(s[1..], m)
      case None =>
        forall j | 1 <= j ensures !OccursAt(s, m, j) {
          OccursInSuffix(s, m, 1, j - 1);
        }
        None
      case Some(k) =>
        OccursInSuffix(s, m, 1, k);
        forall j | 1 <= j <= k ensures !OccursAt(s, m, j) {
          OccursInSuffix(s, m, 1, j - 1);
        }
        Some(k + 1)
  }

  /** `s.includes(m)`. */
  predicate Contains(s: string, m: string) {
    IndexOf(s, m).Some?
  }

  lemma ContainsIff(s: string, m: string)
    ensures Contains(s, m) <==> exists j :: OccursAt(s, m, j)
  {
    if Contains(s, m) {
      assert OccursAt(s, m, IndexOf(s, m).value);
    }
  }

  /** A match inside a prefix or a suffix of `s` is a match in `s`. */
  lemma OccursInSlice(s: string, m: string, lo: nat, hi: nat, j: int)
    requires lo <= hi <= |s|
    requires OccursAt(s[lo..hi], m, j)
    ensures OccursAt(s, m, lo + j)
  {
    var u, v := s[lo..hi][j..j + |m|], s[lo + j..lo + j + |m|];
    forall k | 0 <= k < |m| ensures u[k] == v[k] {
      assert u[k] == s[lo..hi][j + k] == s[lo + j + k];
    }
    assert u == v;
  }

  // ---------------------------------------------------------------------------
  // split / join
  // ---------------------------------------------------------------------------

  /** `s.split(sep)` for a non-empty separator: the pieces between the
      non-overlapping occurrences of `sep`, scanning from the left. */
  function Split(s: string, sep: string): (r: seq<string>)
    requires |sep| > 0
    ensures |r| >= 1
    ensures |r| >= 2 <==> Contains(s, sep)
    decreases |s|
  {
    match IndexOf(s, sep)
    case None => [s]
    case Some(i) => [s[..i]] + Split(s[i + |sep|..], sep)
  }

  /** No occurrence of `m` starts before position `n`. */
  predicate FreeBefore(s: string, m: string, n: int) {
    forall j :: 0 <= j < n ==> !OccursAt(s, m, j)
  }

  /** A prefix free of occurrences of `m` up to its end contains no `m`. */
  lemma FreePrefix(s: string, m: string, n: nat)
    requires |m| > 0 && n <= |s| && FreeBefore(s, m, n)
    ensures !Contains(s[..n], m)
  {
    var p := s[..n];
    forall j | 0 <= j && j + |m| <= n ensures !OccursAt(p, m, j) {
      assert p[j..j + |m|] == s[j..j + |m|];
      assert !OccursAt(s, m, j);
    }
  }

  /** No piece of a split contains the separator. */
  lemma {:induction false} SplitPiecesClean(s: string, sep: string)
    requires |sep| > 0
    ensures forall k :: 0 <= k < |Split(s, sep)| ==> !Contains(Split(s, sep)[k], sep)
    decreases |s|
  {
    match IndexOf(s, sep)
    case None =>
    case Some(i) =>
      FreePrefix(s, sep, i);
      SplitPiecesClean(s[i + |sep|..], sep);
  }

  /** The text of `t` up to its first `sep`, or all of `t` when there is none. */
  function FirstPiece(t: string, sep: string): (r: string)
    requires |sep| > 0
    ensures |r| <= |t| && t[..|r|] == r
    ensures |r| == |t| || OccursAt(t, sep, |r|)
    ensures !Contains(r, sep)
  {
    match IndexOf(t, sep)
    case None => t
    case Some(k) =>
      FreePrefix(t, sep, k);
      t[..k]
  }

  /** An occurrence in a suffix is an occurrence in the whole string. */
  lemma OccursInSuffix(s: string, m: string, b: nat, j: nat)
    requires b <= |s|
    ensures OccursAt(s[b..], m, j) <==> OccursAt(s, m, b + j)
  {
    if b + j + |m| <= |s| {
      assert s[b + j..b + j + |m|] == s[b..][j..j + |m|];
    }
  }

  /** The first piece of a suffix, located in the whole string. */
  lemma PieceAt(s: string, sep: string, b: nat)
    requires |sep| > 0 && b <= |s|
    ensures
      var r := FirstPiece(s[b..], sep);
      && b + |r| <= |s|
      && s[b..b + |r|] == r
      && (b + |r| == |s| || OccursAt(s, sep, b + |r|))
  {
    var r := FirstPiece(s[b..], sep);
    assert s[b..b + |r|] == s[b..][..|r|];
    OccursInSuffix(s, sep, b, |r|);
  }

  /** `r` is the text of `s` right after its first `sep`, running up to the
      next `sep` or to the end. */
  predicate AfterFirst(s: string, sep: string, r: string) {
    && Contains(s, sep)
    && var b := IndexOf(s, sep).value + |sep|;
       && b + |r| <= |s|
       && s[b..b + |r|] == r
       && (b + |r| == |s| || OccursAt(s, sep, b + |r|))
  }

  /** The text after the first `sep` of `s`, up to the next one or the end. */
  function After(s: string, sep: string): (r: string)
    requires |sep| > 0 && Contains(s, sep)
    ensures AfterFirst(s, sep, r)
    ensures !Contains(r, sep)
  {
    var b := IndexOf(s, sep).value + |sep|;
    PieceAt(s, sep, b);
    FirstPiece(s[b..], sep)
  }

  /** `s.split(sep)[1]` is the text after the first separator. */
  lemma SplitSecond(s: string, sep: string)
    requires |sep| > 0 && Contains(s, sep)
    ensures Split(s, sep)[1] == After(s, sep)
  {
  }

  /** `xs.join(sep)`; the empty list joins to the empty string. */
  function Join(xs: seq<string>, sep: string): string
    decreases |xs|
  {
    if |xs| == 0 then ""
    else if |xs| == 1 then xs[0]
    else xs[0] + sep + Join(xs[1..], sep)
  }

  /** Joining the pieces of a split restores the original string. */
  lemma {:induction false} JoinSplit(s: string, sep: string)
    requires |sep| > 0
    ensures Join(Split(s, sep), sep) == s
    decreases |s|
  {
    match IndexOf(s, sep)
    case None =>
    case Some(i) =>
      var rest := s[i + |sep|..];
      JoinSplit(rest, sep);
      assert s[i..i + |sep|] == sep;
      assert s == s[..i] + sep + rest;
  }

  /** An occurrence of `sep` cannot start at a character other than `sep[0]`. */
  lemma FreeOfFirst(s: string, sep: string, n: nat)
    requires |sep| > 0 && n <= |s| && sep[0] !in s[..n]
    ensures FreeBefore(s, sep, n)
  {
    forall j | 0 <= j < n && j + |sep| <= |s| ensures !OccursAt(s, sep, j) {
      assert s[j..j + |sep|][0] == s[j] == s[..n][j];
    }
  }

  /** After a word free of `sep[0]`, the first occurrence of `sep` is the one
      that follows the word. */
  lemma FirstAfterWord(x: string, sep: string, t: string)
    requires |sep| > 0 && sep[0] !in x
    ensures IndexOf(x + sep + t, sep) == Some(|x|)
  {
    var s := x + sep + t;
    assert s[..|x|] == x;
    FreeOfFirst(s, sep, |x|);
    assert s[|x|..|x| + |sep|] == sep;
    assert OccursAt(s, sep, |x|);
  }

  /** Splitting a join gives back the list, as long as no element contains the
      separator's first character (so no occurrence of `sep` can start inside
      an element, nor straddle an element and the separator after it). */
  lemma {:induction false} SplitJoin(xs: seq<string>, sep: string)
    requires |sep| > 0 && |xs| >= 1
    requires forall k :: 0 <= k < |xs| ==> sep[0] !in xs[k]
    ensures Split(Join(xs, sep), sep) == xs
    decreases |xs|
  {
    var x := xs[0];
    if |xs| == 1 {
      assert x[..|x|] == x;
      FreeOfFirst(x, sep, |x|);
      assert IndexOf(x, sep).None?;
      assert xs == [x];
    } else {
      var tl := xs[1..];
      assert forall k :: 0 <= k < |tl| ==> tl[k] == xs[k + 1];
      var rest := Join(tl, sep);
      var s := x + sep + rest;
      assert Join(xs, sep) == s;
      FirstAfterWord(x, sep, rest);
      assert s[..|x|] == x;
      assert s[|x| + |sep|..] == rest;
      SplitJoin(tl, sep);
      assert Split(s, sep) == [x] + tl;
      assert xs == [x] + tl;
    }
  }

  // ---------------------------------------------------------------------------
  // Whitespace rewrites
  // ---------------------------------------------------------------------------

  /** `s.replace(/\s/g, '')`: every whitespace character is removed and every
      other one kept. With `RemoveSpacesAppend` this pins the operation down:
      a whitespace character goes, any other character stays. */
  function RemoveSpaces(s: string): (r: string)
    ensures NoSpace(r)
    ensures |r| <= |s|
    ensures AllSpace(s) ==> r == ""
    ensures NoSpace(s) ==> r == s
    decreases |s|
  {
    if |s| == 0 then ""
    else if IsSpace(s[0]) then RemoveSpaces(s[1..])
    else
      assert [s[0]] + s[1..] == s;
      [s[0]] + RemoveSpaces(s[1..])
  }

  /** Removal works piece by piece. */
  lemma {:induction false} RemoveSpacesAppend(a: string, b: string)
    ensures RemoveSpaces(a + b) == RemoveSpaces(a) + RemoveSpaces(b)
    decreases |a|
  {
    if |a| > 0 {
      assert (a + b)[0] == a[0];
      assert (a + b)[1..] == a[1..] + b;
      RemoveSpacesAppend(a[1..], b);
    } else {
      assert a + b == b;
    }
  }

  /** A whitespace character in front of whitespace keeps it all whitespace. */
  lemma AllSpaceCons(c: char, t: string)
    requires IsSpace(c) && AllSpace(t)
    ensures AllSpace([c] + t)
  {
    assert forall i :: 0 < i <= |t| ==> ([c] + t)[i] == t[i - 1];
  }

  /** `trimStart`: the suffix left after the leading whitespace. */
  function DropSpaces(s: string): (r: string)
    ensures |r| <= |s| && r == s[|s| - |r|..]
    ensures AllSpace(s[..|s| - |r|])
    ensures |r| == 0 || !IsSpace(r[0])
    decreases |s|
  {
    if |s| > 0 && IsSpace(s[0]) then
      var r := DropSpaces(s[1..]);
      assert s[|s| - |r|..] == s[1..][|s| - 1 - |r|..];
      assert s[..|s| - |r|] == [s[0]] + s[1..][..|s| - 1 - |r|];
      AllSpaceCons(s[0], s[1..][..|s| - 1 - |r|]);
      r
    else s
  }

  /** `trimEnd`: the prefix left before the trailing whitespace. */
  function DropTrailingSpaces(s: string): (r: string)
    ensures |r| <= |s| && r == s[..|r|]
    ensures AllSpace(s[|r|..])
    ensures |r| == 0 || !IsSpace(r[|r| - 1])
    decreases |s|
  {
    if |s| > 0 && IsSpace(s[|s| - 1]) then
      var r := DropTrailingSpaces(s[..|s| - 1]);
      assert s[|r|..] == s[..|s| - 1][|r|..] + [s[|s| - 1]];
      r
    else s
  }

  /** `s.trim()`: once the leading whitespace is gone (`DropSpaces`), the
      longest prefix of what is left that is followed by whitespace only. */
  function Trim(s: string): (r: string)
    ensures var d := DropSpaces(s); |r| <= |d| && r == d[..|r|] && AllSpace(d[|r|..])
  {
    DropTrailingSpaces(DropSpaces(s))
  }

  /** The trimmed string is empty exactly when the input is blank, and otherwise
      neither starts nor ends with whitespace. */
  lemma TrimEmptyIffBlank(s: string)
    ensures Trim(s) == "" <==> AllSpace(s)
    ensures Trim(s) != "" ==> !IsSpace(Trim(s)[0]) && !IsSpace(Trim(s)[|Trim(s)| - 1])
  {
    var d := DropSpaces(s);
    if Trim(s) == "" {
      assert AllSpace(d[0..]);
      assert s == s[..|s| - |d|] + d;
    }
  }

  /** `s.replace(/\s+/g, '_')`: every maximal run of whitespace becomes one `_`. */
  function CollapseSpaces(s: string): (r: string)
    ensures NoSpace(r)
    ensures |r| <= |s|
    decreases |s|
  {
    if |s| == 0 then ""
    else if IsSpace(s[0]) then "_" + CollapseSpaces(DropSpaces(s[1..]))
    else [s[0]] + CollapseSpaces(s[1..])
  }

  /** A word without whitespace is copied through unchanged. */
  lemma {:induction false} CollapseWord(w: string, t: string)
    requires NoSpace(w)
    ensures CollapseSpaces(w + t) == w + CollapseSpaces(t)
    decreases |w|
  {
    if |w| > 0 {
      assert (w + t)[0] == w[0];
      assert (w + t)[1..] == w[1..] + t;
      CollapseWord(w[1..], t);
      assert w == [w[0]] + w[1..];
    } else {
      assert w + t == t;
    }
  }

  /** A whole run of whitespace, however long, becomes a single `_`. */
  lemma {:induction false} CollapseRun(g: string, t: string)
    requires |g| > 0 && AllSpace(g)
    requires |t| == 0 || !IsSpace(t[0])
    ensures CollapseSpaces(g + t) == "_" + CollapseSpaces(t)
  {
    assert (g + t)[1..] == g[1..] + t;
    DropRun(g[1..], t);
  }

  lemma {:induction false} DropRun(g: string, t: string)
    requires AllSpace(g)
    requires |t| == 0 || !IsSpace(t[0])
    ensures DropSpaces(g + t) == t
    decreases |g|
  {
    if |g| > 0 {
      assert (g + t)[1..] == g[1..] + t;
      DropRun(g[1..], t);
    } else {
      assert g + t == t;
    }
  }

  /** Two words around a whitespace run collapse to the words joined by `_`. */
  lemma CollapseWords(w1: string, gap: string, w2: string)
    requires NoSpace(w1) && NoSpace(w2)
    requires |gap| > 0 && AllSpace(gap)
    ensures CollapseSpaces(w1 + gap + w2) == w1 + "_" + w2
  {
    Regroup(w1, gap, w2);
    Regroup(w1, "_", w2);
    CollapseGap(gap, w2);
    CollapseWord(w1, gap + w2);
  }

  lemma Regroup(a: string, b: string, c: string)
    ensures a + b + c == a + (b + c)
  {
  }

  /** A whitespace run followed by a word collapses to `_` and the word. */
  lemma CollapseGap(gap: string, w: string)
    requires NoSpace(w) && |gap| > 0 && AllSpace(gap)
    ensures CollapseSpaces(gap + w) == "_" + w
  {
    CollapseRun(gap, w);
    CollapseNoSpace(w);
  }

  lemma CollapseNoSpace(s: string)
    requires NoSpace(s)
    ensures CollapseSpaces(s) == s
  {
    CollapseWord(s, "");
    assert s + "" == s;
  }
}
