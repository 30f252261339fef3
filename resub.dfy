/** What Python's `re.sub(pattern, repl, text)` does with a pattern that can
    never match the empty string: scan left to right, and at each position
    either replace the match found there and resume after it, or keep the
    character and move on. A pattern is represented by its matcher, which
    gives the length of the match (leftmost, with the regex engine's own
    backtracking order) at the start of a string. */
module ReSub {
  import opened PyValues

  /** Python's `\s` on str patterns, the characters for which `str.isspace()`
      holds; it is also the set `str.strip()` removes. */
  predicate IsSpace(c: char)
  {
    c == ' ' || ('\t' <= c <= '\r') || ('\U{1C}' <= c <= '\U{1F}') ||
    c == '\U{85}' || c == '\U{A0}' || c == '\U{1680}' ||
    ('\U{2000}' <= c <= '\U{200A}') || c == '\U{2028}' || c == '\U{2029}' ||
    c == '\U{202F}' || c == '\U{205F}' || c == '\U{3000}'
  }

  /** Python's `\w` on str patterns: ASCII letters, digits and `_`, and
      beyond ASCII every character for which `str.isalnum()` holds, which is
      given as `alnum` because it follows the Unicode database. */
  predicate IsWordChar(alnum: char -> bool, c: char)
  {
    ('a' <= c <= 'z') || ('A' <= c <= 'Z') || ('0' <= c <= '9') || c == '_' ||
    (c > '\U{7F}' && alnum(c))
  }

  /** Length of the match at the start of a string, if the pattern matches there. */
  type Matcher = string -> Option<nat>

  /** The matcher reports a usable match at the start of `s`. */
  predicate Matches(m: Matcher, s: string)
  {
    m(s).Some? && 0 < m(s).value <= |s|
  }

  /** `re.sub` with matcher `m` and replacement `repl`. */
  function Sub(m: Matcher, repl: string, s: string): string
    decreases |s|
  {
    if s == [] then []
    else if Matches(m, s) then repl + Sub(m, repl, s[m(s).value..])
    else [s[0]] + Sub(m, repl, s[1..])
  }

  /** Substitution at the start of `t` would leave `t` as it is. */
  predicate Unchanged(m: Matcher, repl: string, t: string)
  {
    !Matches(m, t) || t[..m(t).value] == repl
  }

  /** `a` is `b` with some characters deleted. */
  predicate IsSubsequence(a: string, b: string)
    decreases |b|
  {
    a == [] || (b != [] && ((a[0] == b[0] && IsSubsequence(a[1..], b[1..])) || IsSubsequence(a, b[1..])))
  }

  lemma {:induction false} SubsequenceOfLonger(a: string, c: string, b: string)
    requires IsSubsequence(a, b)
    ensures IsSubsequence(a, c + b)
    decreases |c|
  {
    if c == [] {
      assert c + b == b;
    } else {
      SubsequenceOfLonger(a, c[1..], b);
      assert (c + b)[1..] == c[1..] + b;
    }
  }

  /** If substituting changes nothing at any position, `re.sub` returns its input. */
  lemma {:induction false} SubIdentity(m: Matcher, repl: string, s: string)
    requires forall i :: 0 <= i < |s| ==> Unchanged(m, repl, s[i..])
    ensures Sub(m, repl, s) == s
    decreases |s|
  {
    if s != [] {
      assert Unchanged(m, repl, s[0..]);
      assert s[0..] == s;
      var n := if Matches(m, s) then m(s).value else 1;
      forall i | 0 <= i < |s[n..]| ensures Unchanged(m, repl, s[n..][i..]) {
        assert s[n..][i..] == s[n + i..];
        assert Unchanged(m, repl, s[n + i..]);
      }
      SubIdentity(m, repl, s[n..]);
      if Matches(m, s) {
        assert s == s[..n] + s[n..];
      } else {
        assert s == [s[0]] + s[1..];
      }
    }
  }

  /** With an empty replacement, `re.sub` only deletes characters. */
  lemma {:induction false} SubDeletes(m: Matcher, s: string)
    ensures IsSubsequence(Sub(m, [], s), s)
    decreases |s|
  {
    if s != [] {
      if Matches(m, s) {
        var n := m(s).value;
        SubDeletes(m, s[n..]);
        assert Sub(m, [], s) == [] + Sub(m, [], s[n..]) == Sub(m, [], s[n..]);
        SubsequenceOfLonger(Sub(m, [], s), s[..n], s[n..]);
        assert s[..n] + s[n..] == s;
      } else {
        SubDeletes(m, s[1..]);
        var r := Sub(m, [], s);
        assert r == [s[0]] + Sub(m, [], s[1..]);
        assert r[1..] == Sub(m, [], s[1..]);
      }
    }
  }

  /** `\S`. */
  predicate NotSpace(c: char)
  {
    !IsSpace(c)
  }

  /** Length of the longest prefix of `t` whose characters all satisfy `p`:
      what a greedy `[class]+` (or `*`) consumes. */
  function Run(p: char -> bool, t: string): (n: nat)
    ensures n <= |t|
    ensures forall k :: 0 <= k < n ==> p(t[k])
    ensures n < |t| ==> !p(t[n])
    decreases |t|
  {
    if t == [] || !p(t[0]) then 0 else 1 + Run(p, t[1..])
  }

  /** Length of the leading run of non-whitespace characters (what `\S+` consumes). */
  function NonSpaceRun(t: string): nat
  {
    Run(NotSpace, t)
  }

  /** The leading non-whitespace run of `u` is a prefix of that of `t`. */
  predicate RunPrefixOf(u: string, t: string)
  {
    NonSpaceRun(u) <= NonSpaceRun(t) && u[..NonSpaceRun(u)] == t[..NonSpaceRun(u)]
  }

  /** A pattern whose matches always end in `\S+`, consuming the whole leading
      non-whitespace run, and whose matching depends only on that run, so that
      it still matches when the run is extended. */
  ghost predicate RunMatcher(m: Matcher)
  {
    (forall t :: m(t).Some? ==> 0 < NonSpaceRun(t) && m(t).value == NonSpaceRun(t)) &&
    (forall u, t :: m(u).Some? && RunPrefixOf(u, t) ==> m(t).Some?)
  }

  /** A text starting with whitespace has an empty leading run. */
  lemma NoRun(u: string)
    requires u == [] || IsSpace(u[0])
    ensures NonSpaceRun(u) == 0
  {
    if u != [] {
      assert !NotSpace(u[0]);
    }
  }

  /** A run-consuming pattern never matches at whitespace, so the
      whitespace character is kept. */
  lemma SpaceLedKept(m: Matcher, u: string)
    requires RunMatcher(m)
    requires u != [] && IsSpace(u[0])
    ensures Sub(m, [], u) != [] && Sub(m, [], u)[0] == u[0]
  {
    NoRun(u);
    assert !Matches(m, u);
    assert Sub(m, [], u) == [u[0]] + Sub(m, [], u[1..]);
  }

  /** Removing run-consuming matches never lengthens the leading run: the
      leading non-whitespace run of the output is a prefix of the input's. */
  lemma {:induction false} RunPrefixKept(m: Matcher, t: string)
    requires RunMatcher(m)
    ensures RunPrefixOf(Sub(m, [], t), t)
    decreases |t|
  {
    var r := Sub(m, [], t);
    if t == [] {
    } else if Matches(m, t) {
      var n := m(t).value;
      var rest := t[n..];
      assert r == [] + Sub(m, [], rest);
      if rest != [] {
        assert n == NonSpaceRun(t) && rest[0] == t[n];
        SpaceLedKept(m, rest);
      }
      NoRun(r);
    } else if IsSpace(t[0]) {
      SpaceLedKept(m, t);
      NoRun(r);
    } else {
      RunPrefixStep(m, t);
    }
  }

  /** The inductive step of `RunPrefixKept`: a kept non-whitespace first character. */
  lemma {:induction false} RunPrefixStep(m: Matcher, t: string)
    requires RunMatcher(m)
    requires t != [] && !Matches(m, t) && !IsSpace(t[0])
    ensures RunPrefixOf(Sub(m, [], t), t)
    decreases |t|, 0
  {
    var r := Sub(m, [], t);
    var r1 := Sub(m, [], t[1..]);
    RunPrefixKept(m, t[1..]);
    assert r == [t[0]] + r1;
    assert r[1..] == r1;
    assert NonSpaceRun(r) == 1 + NonSpaceRun(r1);
    assert NonSpaceRun(t) == 1 + NonSpaceRun(t[1..]);
    var k := NonSpaceRun(r1);
    assert r[..k + 1] == [t[0]] + r1[..k];
    assert t[..k + 1] == [t[0]] + t[1..][..k];
  }

  /** After `re.sub(p, '', s)` with a run-consuming pattern `p`, `p` matches
      nowhere in the output. */
  lemma {:induction false} RunFree(m: Matcher, s: string)
    requires RunMatcher(m)
    ensures forall i :: 0 <= i < |Sub(m, [], s)| ==> m(Sub(m, [], s)[i..]).None?
    decreases |s|
  {
    var r := Sub(m, [], s);
    if s == [] {
    } else if Matches(m, s) {
      RunFree(m, s[m(s).value..]);
      assert r == [] + Sub(m, [], s[m(s).value..]) == Sub(m, [], s[m(s).value..]);
    } else {
      var r1 := Sub(m, [], s[1..]);
      RunFree(m, s[1..]);
      assert r == [s[0]] + r1;
      forall i | 0 <= i < |r| ensures m(r[i..]).None? {
        if i == 0 {
          assert r[0..] == r;
          RunPrefixKept(m, s);
          assert m(r).Some? ==> m(s).Some?;
          assert m(s).Some? ==> Matches(m, s);
        } else {
          assert r[i..] == r1[i - 1..];
        }
      }
    }
  }
}
