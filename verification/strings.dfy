/** The Python `str` operations the importers use: `in`, `split(...)[k]`, slicing and `os.path.splitext`. */
module Strings {
  import opened Wrappers

  /** `pat` occurs in `s` at index `i`. */
  predicate MatchAt(s: string, pat: string, i: nat) {
    i + |pat| <= |s| && s[i..i + |pat|] == pat
  }

  /** The first occurrence of `pat` in `s` at or after `k`. */
  function IndexFrom(s: string, pat: string, k: nat): (r: Option<nat>)
    ensures r.Some? ==> k <= r.value && r.value + |pat| <= |s|
    decreases |s| - k
  {
    if k + |pat| > |s| then None
    else if s[k..k + |pat|] == pat then Some(k)
    else IndexFrom(s, pat, k + 1)
  }

  /** The search finds the first match at or after `k`, and reports none only when there is none. */
  lemma {:induction false} IndexFromSpec(s: string, pat: string, k: nat)
    ensures var r := IndexFrom(s, pat, k);
      && (r.Some? ==> k <= r.value && MatchAt(s, pat, r.value))
      && (r.Some? ==> forall i: nat :: k <= i < r.value ==> !MatchAt(s, pat, i))
      && (r.None? ==> forall i: nat :: k <= i ==> !MatchAt(s, pat, i))
    decreases |s| - k
  {
    if k + |pat| <= |s| && s[k..k + |pat|] != pat {
      IndexFromSpec(s, pat, k + 1);
    }
  }

  /** Python's `pat in s`. */
  function Contains(s: string, pat: string): bool {
    IndexFrom(s, pat, 0).Some?
  }

  lemma ContainsSpec(s: string, pat: string)
    ensures Contains(s, pat) <==> exists i: nat :: MatchAt(s, pat, i)
  {
    IndexFromSpec(s, pat, 0);
  }

  /**
   * Python's `text.split(sep)[1]`: the text between the first and the second
   * occurrence of `sep`, or up to the end; `None` where Python raises
   * `IndexError` because `sep` does not occur.
   */
  function SplitSecond(text: string, sep: string): Option<string> {
    match IndexFrom(text, sep, 0)
    case None => None
    case Some(i) => Some(UpToSeparator(text[i + |sep|..], sep))
  }

  /** `rest` up to the first `sep` in it, or all of `rest`. */
  function UpToSeparator(rest: string, sep: string): string {
    match IndexFrom(rest, sep, 0)
    case None => rest
    case Some(j) => rest[..j]
  }

  /**
   * `r` is `rest` cut at its first `sep`: a prefix of `rest` without a
   * separator, at no index of which a separator starts in `rest` (so even
   * an overlapping one cuts there), followed by one unless it runs to the
   * end of `rest`.
   */
  predicate CutAtSeparator(r: string, rest: string, sep: string) {
    && r <= rest
    && !Contains(r, sep)
    && (forall k: nat :: k < |r| ==> !MatchAt(rest, sep, k))
    && (|r| < |rest| ==> MatchAt(rest, sep, |r|))
  }

  /**
   * The split fails exactly when the separator does not occur; otherwise the
   * result is the text after the first separator, cut at the next one.
   */
  lemma SplitSecondSpec(text: string, sep: string)
    requires |sep| > 0
    ensures SplitSecond(text, sep).None? <==> !Contains(text, sep)
    ensures SplitSecond(text, sep).Some? ==>
      CutAtSeparator(SplitSecond(text, sep).value, text[IndexFrom(text, sep, 0).value + |sep|..], sep)
  {
    if IndexFrom(text, sep, 0).Some? {
      var i := IndexFrom(text, sep, 0).value;
      var rest := text[i + |sep|..];
      assert SplitSecond(text, sep) == Some(UpToSeparator(rest, sep));
      UpToSeparatorSpec(rest, sep);
    }
  }

  /** The cut is `rest` up to its first separator. */
  lemma UpToSeparatorSpec(rest: string, sep: string)
    requires |sep| > 0
    ensures CutAtSeparator(UpToSeparator(rest, sep), rest, sep)
  {
    IndexFromSpec(rest, sep, 0);
    var r := UpToSeparator(rest, sep);
    assert r == rest[..|r|];
    assert forall k: nat :: k < |r| ==> !MatchAt(rest, sep, k);
    forall k: nat
      ensures !MatchAt(r, sep, k)
    {
      if k + |sep| <= |r| {
        assert !MatchAt(rest, sep, k);
        assert r[k..k + |sep|] == rest[k..k + |sep|];
      }
    }
    ContainsSpec(r, sep);
  }

  /**
   * A text written as `prefix + sep + name` splits back to `name`, provided
   * the separator occurs neither in `name` nor anywhere before the written
   * separator (not even overlapping it).
   */
  lemma SplitSecondRoundTrip(prefix: string, sep: string, name: string)
    requires |sep| > 0
    requires !Contains(prefix + sep[..|sep| - 1], sep)
    requires !Contains(name, sep)
    ensures SplitSecond(prefix + sep + name, sep) == Some(name)
  {
    var text := prefix + sep + name;
    var u := prefix + sep[..|sep| - 1];
    assert text[|prefix|..|prefix| + |sep|] == sep;
    ContainsSpec(u, sep);
    forall i: nat | i < |prefix| && MatchAt(text, sep, i)
      ensures false
    {
      assert text[i..i + |sep|] == u[i..i + |sep|];
      assert MatchAt(u, sep, i);
    }
    IndexFromSpec(text, sep, 0);
    assert MatchAt(text, sep, |prefix|);
    assert IndexFrom(text, sep, 0) == Some(|prefix|);
    assert text[|prefix| + |sep|..] == name;
    IndexFromSpec(name, sep, 0);
  }

  /** Python's `s.split(c)[0]`: the text before the first `c`, or all of `s`. */
  function Before(s: string, c: char): (r: string)
    ensures c !in r
    ensures r <= s
    ensures |r| < |s| ==> s[|r|] == c
  {
    if |s| == 0 || s[0] == c then ""
    else [s[0]] + Before(s[1..], c)
  }

  /** A name written as `prefix + c + rest`, with no `c` in `prefix`, yields `prefix` back. */
  lemma BeforeRoundTrip(prefix: string, c: char, rest: string)
    requires c !in prefix
    ensures Before(prefix + [c] + rest, c) == prefix
  {
    var s := prefix + [c] + rest;
    assert s[|prefix|] == c;
  }

  /** Python's `s.split(c)[-1]`: the text after the last `c`, or all of `s`. */
  function AfterLast(s: string, c: char): (r: string)
    ensures c !in r
    ensures |r| <= |s| && r == s[|s| - |r|..]
    ensures |r| < |s| ==> s[|s| - |r| - 1] == c
  {
    if |s| == 0 || s[|s| - 1] == c then ""
    else AfterLast(s[..|s| - 1], c) + [s[|s| - 1]]
  }

  /** A path written as `dir + c + last`, with no `c` in `last`, yields `last` back. */
  lemma AfterLastRoundTrip(dir: string, c: char, last: string)
    requires c !in last
    ensures AfterLast(dir + [c] + last, c) == last
  {
    var s := dir + [c] + last;
    assert s[|s| - |last| - 1] == c;
    assert s[|s| - |last|..] == last;
  }

  /** Python's `s[:-n]`: all but the last `n` characters, or nothing when `s` is shorter. */
  function DropLast(s: string, n: nat): (r: string)
    ensures r <= s
    ensures |r| == if |s| >= n then |s| - n else 0
  {
    if |s| >= n then s[..|s| - n] else ""
  }

  /** The index of the last `c` in `s`. */
  function LastIndex(s: string, c: char): (r: Option<nat>)
    ensures r.Some? ==> r.value < |s| && s[r.value] == c && c !in s[r.value + 1..]
    ensures r.None? ==> c !in s
  {
    if |s| == 0 then None
    else if s[|s| - 1] == c then Some(|s| - 1)
    else
      var r := LastIndex(s[..|s| - 1], c);
      assert r.Some? ==> s[r.value + 1..] == s[..|s| - 1][r.value + 1..] + [s[|s| - 1]];
      r
  }

  predicate AllDots(s: string) {
    forall i :: 0 <= i < |s| ==> s[i] == '.'
  }

  /**
   * `os.path.splitext(name)[1]` for a bare file name: from the last `.` to the
   * end, unless everything before that dot is dots (a hidden file such as `.tsv`).
   */
  function Extension(name: string): (r: string)
    ensures r == "" || (r[0] == '.' && '.' !in r[1..] && |r| <= |name| && r == name[|name| - |r|..] && !AllDots(name[..|name| - |r|]))
  {
    match LastIndex(name, '.')
    case None => ""
    case Some(i) =>
      if AllDots(name[..i]) then ""
      else
        assert name[i..][1..] == name[i + 1..];
        name[i..]
  }

  /** A file named `stem + ext`, with a real stem and a one-dot `ext`, has extension `ext`. */
  lemma ExtensionRoundTrip(stem: string, ext: string)
    requires |ext| > 0 && ext[0] == '.' && '.' !in ext[1..]
    requires !AllDots(stem)
    ensures Extension(stem + ext) == ext
  {
    var name := stem + ext;
    LastIndexOfSuffix(stem, ext);
    assert name[..|stem|] == stem;
    assert name[|stem|..] == ext;
  }

  lemma {:induction false} LastIndexOfSuffix(stem: string, ext: string)
    requires |ext| > 0 && ext[0] == '.' && '.' !in ext[1..]
    ensures LastIndex(stem + ext, '.') == Some(|stem|)
    decreases |ext|
  {
    var name := stem + ext;
    if |ext| > 1 {
      var init := ext[..|ext| - 1];
      assert ext[|ext| - 1] in ext[1..];
      assert init[1..] <= ext[1..];
      LastIndexOfSuffix(stem, init);
      assert name[..|name| - 1] == stem + init;
    }
  }
}
