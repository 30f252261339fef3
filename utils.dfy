/** `preprocess_text` from src/rag_project/utils.py: a fixed chain of
    `re.sub` rewrites of the text, followed by lowercasing, tokenising with a
    language model, dropping stop words and punctuation, and joining the
    lemmas with single spaces. Each rewrite is one step function here, and
    the properties are stated per step: a later step can re-create a pattern
    an earlier step removed. */
module Utils {
  import opened PyValues
  import opened ReSub

  // ----------------------------------------------------------------------
  // Step 1: `<.*?>` (line 30). `.` does not match a newline.

  /** Index of the first `c` in `t` that comes before any newline. */
  function FirstOnLine(t: string, c: char): (r: Option<nat>)
    ensures r.Some? ==> r.value < |t| && t[r.value] == c
    ensures r.Some? ==> forall k :: 0 <= k < r.value ==> t[k] != c && t[k] != '\n'
    ensures r.None? ==> forall j :: 0 <= j < |t| && t[j] == c ==> '\n' in t[..j]
    decreases |t|
  {
    if t == [] then None
    else if t[0] == c then Some(0)
    else if t[0] == '\n' then None
    else match FirstOnLine(t[1..], c)
      case Some(j) => Some(j + 1)
      case None => None
  }

  /** `<.*?>` at the start of `s`: a `<`, then the shortest text without a
      newline up to a `>`. */
  function MatchTag(s: string): (r: Option<nat>)
    ensures r.Some? ==> 2 <= r.value <= |s| && s[0] == '<' && s[r.value - 1] == '>'
    ensures r.Some? ==> forall k :: 1 <= k < r.value - 1 ==> s[k] != '>' && s[k] != '\n'
    ensures r.None? && s != [] && s[0] == '<' ==>
              forall j :: 1 <= j < |s| && s[j] == '>' ==> '\n' in s[1..j]
  {
    if s != [] && s[0] == '<' then
      match FirstOnLine(s[1..], '>')
      case Some(j) =>
        assert forall k :: 1 <= k < j + 1 ==> s[k] == s[1..][k - 1];
        Some(j + 2)
      case None =>
        assert forall j :: 1 <= j < |s| ==> s[1..j] == s[1..][..j - 1];
        None
    else None
  }

  function StripTags(s: string): string
  {
    Sub(MatchTag, [], s)
  }

  /** No `<` is followed by a `>` before the next newline. */
  predicate TagFree(r: string)
  {
    forall i :: 0 <= i < |r| && r[i] == '<' ==> FirstOnLine(r[i + 1..], '>').None?
  }

  /** Text with no `>` before its first newline keeps that property under the
      tag step: removed spans never contain a newline. */
  lemma {:induction false} NoCloseKept(t: string)
    requires FirstOnLine(t, '>').None?
    ensures FirstOnLine(StripTags(t), '>').None?
    decreases |t|
  {
    if t != [] {
      assert t[0] != '>';
      assert !Matches(MatchTag, t);
      var r := StripTags(t);
      assert r == [t[0]] + StripTags(t[1..]);
      assert r[1..] == StripTags(t[1..]);
      if t[0] != '\n' {
        NoCloseKept(t[1..]);
      }
    }
  }

  /** After the tag step no `<` in the text is followed by a `>` on the same line. */
  lemma {:induction false} TagStepLeavesNoTag(s: string)
    ensures TagFree(StripTags(s))
    decreases |s|
  {
    var r := StripTags(s);
    if s == [] {
    } else if Matches(MatchTag, s) {
      var n := MatchTag(s).value;
      TagStepLeavesNoTag(s[n..]);
      assert r == [] + StripTags(s[n..]) == StripTags(s[n..]);
    } else {
      var r1 := StripTags(s[1..]);
      TagStepLeavesNoTag(s[1..]);
      assert r == [s[0]] + r1;
      forall i | 0 <= i < |r| && r[i] == '<' ensures FirstOnLine(r[i + 1..], '>').None? {
        if i == 0 {
          assert r[1..] == r1;
          assert FirstOnLine(s[1..], '>').None?;
          NoCloseKept(s[1..]);
        } else {
          assert r[i + 1..] == r1[i..];
          assert r1[i - 1] == '<';
        }
      }
    }
  }

  /** The tag step is idempotent. */
  lemma StripTagsIdempotent(s: string)
    ensures StripTags(StripTags(s)) == StripTags(s)
  {
    var r := StripTags(s);
    TagStepLeavesNoTag(s);
    forall i | 0 <= i < |r| ensures Unchanged(MatchTag, [], r[i..]) {
      assert r[i..][0] == r[i];
      assert r[i..][1..] == r[i + 1..];
    }
    SubIdentity(MatchTag, [], r);
  }

  // ----------------------------------------------------------------------
  // Step 2: `!\[.*?\]\(.*?\)` (line 33).

  /** The first group of `!\[.*?\]\(.*?\)` can end at index `e`: `](`
      follows, and the second group finds a `)` on the same line. */
  predicate CloseAt(s: string, e: nat)
  {
    e + 1 < |s| && s[e] == ']' && s[e + 1] == '(' && FirstOnLine(s[e + 2..], ')').Some?
  }

  /** `e` is the end the lazy first group settles on when it starts at `j`:
      the first possible end, with no newline before it. */
  predicate FirstCloseFrom(s: string, j: nat, e: nat)
    requires j <= |s|
  {
    j <= e && CloseAt(s, e) && '\n' !in s[j..e] && forall e' :: j <= e' < e ==> !CloseAt(s, e')
  }

  /** The rest of `!\[.*?\]\(.*?\)` once the first group may end at index
      `j`: the lazy group tries ends `j, j + 1, ...` on the same line, and
      takes the first one followed by `](` and a `)` on the same line. */
  function ImageFrom(s: string, j: nat): (r: Option<nat>)
    ensures r.Some? ==> j + 3 <= r.value <= |s| && s[r.value - 1] == ')'
    ensures r.Some? ==> forall k :: j <= k < r.value ==> s[k] != '\n'
    decreases |s| - j
  {
    if j + 1 >= |s| then None
    else if CloseAt(s, j) then
      var k := FirstOnLine(s[j + 2..], ')').value;
      assert forall i :: j + 2 <= i < j + 2 + k ==> s[i] == s[j + 2..][i - (j + 2)];
      Some(j + 2 + k + 1)
    else if s[j] == '\n' then None
    else ImageFrom(s, j + 1)
  }

  /** What the lazy first group and the lazy second group settle on. */
  lemma {:induction false} ImageFromSpec(s: string, j: nat)
    requires j <= |s|
    ensures ImageFrom(s, j).Some? ==>
              exists e: nat :: FirstCloseFrom(s, j, e) &&
                ImageFrom(s, j).value == e + 3 + FirstOnLine(s[e + 2..], ')').value
    ensures ImageFrom(s, j).None? ==> NoCloseFrom(s, j)
    decreases |s| - j
  {
    if j + 1 >= |s| {
    } else if CloseAt(s, j) {
      assert s[j..j] == [];
      assert FirstCloseFrom(s, j, j);
    } else if s[j] == '\n' {
      NewlineBlocksClose(s, j);
    } else {
      ImageFromSpec(s, j + 1);
      if ImageFrom(s, j + 1).Some? {
        var e: nat :| FirstCloseFrom(s, j + 1, e) &&
                      ImageFrom(s, j + 1).value == e + 3 + FirstOnLine(s[e + 2..], ')').value;
        FirstCloseExtends(s, j, e);
      } else {
        NoCloseExtends(s, j);
      }
    }
  }

  /** Every possible end of the first group from `j` lies after a newline. */
  predicate NoCloseFrom(s: string, j: nat)
    requires j <= |s|
  {
    forall e :: j <= e < |s| && CloseAt(s, e) ==> '\n' in s[j..e]
  }

  lemma NewlineBlocksClose(s: string, j: nat)
    requires j < |s| && s[j] == '\n' && !CloseAt(s, j)
    ensures NoCloseFrom(s, j)
  {
    forall e | j <= e < |s| && CloseAt(s, e) ensures '\n' in s[j..e] {
      assert s[j..e][0] == '\n';
    }
  }

  lemma FirstCloseExtends(s: string, j: nat, e: nat)
    requires j < |s| && s[j] != '\n' && !CloseAt(s, j) && FirstCloseFrom(s, j + 1, e)
    ensures FirstCloseFrom(s, j, e)
  {
    assert s[j..e] == [s[j]] + s[j + 1..e];
  }

  lemma NoCloseExtends(s: string, j: nat)
    requires j + 1 <= |s| && s[j] != '\n' && !CloseAt(s, j) && NoCloseFrom(s, j + 1)
    ensures NoCloseFrom(s, j)
  {
    forall e | j <= e < |s| && CloseAt(s, e) ensures '\n' in s[j..e] {
      assert s[j..e] == [s[j]] + s[j + 1..e];
    }
  }

  /** `!\[.*?\]\(.*?\)` at the start of `s`. */
  function MatchMdImage(s: string): (r: Option<nat>)
    ensures r.Some? ==> 5 <= r.value <= |s| && s[..2] == "![" && s[r.value - 1] == ')'
    ensures r.Some? ==> forall k :: 0 <= k < r.value ==> s[k] != '\n'
  {
    if |s| >= 2 && s[0] == '!' && s[1] == '[' then ImageFrom(s, 2) else None
  }

  /** A match is `![`, the shortest newline-free text up to a `](` that is
      followed by a `)` on the same line, and then the shortest text up to
      that `)`. There is no match exactly when `s` does not start with `![`
      or every such `](` comes after a newline. */
  lemma MatchMdImageSpec(s: string)
    ensures MatchMdImage(s).Some? ==>
              exists e: nat :: FirstCloseFrom(s, 2, e) &&
                MatchMdImage(s).value == e + 3 + FirstOnLine(s[e + 2..], ')').value
    ensures MatchMdImage(s).None? <==> |s| < 2 || s[..2] != "![" || NoCloseFrom(s, 2)
  {
    if |s| >= 2 && s[0] == '!' && s[1] == '[' {
      ImageFromSpec(s, 2);
      if ImageFrom(s, 2).Some? {
        var e: nat :| FirstCloseFrom(s, 2, e) &&
                      ImageFrom(s, 2).value == e + 3 + FirstOnLine(s[e + 2..], ')').value;
        assert !NoCloseFrom(s, 2) by {
          assert '\n' !in s[2..e];
        }
      }
    }
  }

  function StripMdImages(s: string): string
  {
    Sub(MatchMdImage, [], s)
  }

  /** The Markdown image step only deletes characters. */
  lemma MdImageStepDeletes(s: string)
    ensures IsSubsequence(StripMdImages(s), s)
  {
    SubDeletes(MatchMdImage, s);
  }

  /** `![x](y)` with one-character text and address is an image of length 7. */
  lemma ShortImage(u: string)
    requires |u| >= 7 && u[..2] == "![" && u[3] == ']' && u[4] == '(' && u[6] == ')'
    requires u[2] != '\n' && u[5] !in ")\n"
    ensures MatchMdImage(u) == Some(7)
  {
    assert u[0] == '!' && u[1] == '[';
    assert u[5..][0] == u[5] && u[5..][1..] == u[6..] && u[6..][0] == ')';
    assert FirstOnLine(u[5..], ')') == Some(1);
    assert ImageFrom(u, 3) == Some(7);
  }

  /** Where `![` does not start the text, its first character is kept. */
  lemma MdImageStepKeeps(s: string)
    requires s != [] && (|s| < 2 || s[0] != '!' || s[1] != '[')
    ensures StripMdImages(s) == [s[0]] + StripMdImages(s[1..])
  {
  }

  /** `[c](d)` holds no image: no position starts with `![`. */
  lemma NoImageIn(t: string)
    requires t == "[c](d)"
    ensures StripMdImages(t) == t
  {
    var t1, t2, t3, t4, t5 := t[1..], t[2..], t[3..], t[4..], t[5..];
    assert t1[1..] == t2 && t2[1..] == t3 && t3[1..] == t4 && t4[1..] == t5 && t5[1..] == [];
    assert t[0] == '[' && t1[0] == 'c' && t2[0] == ']' && t3[0] == '(' && t4[0] == 'd' && t5[0] == ')';
    MdImageStepKeeps(t5);
    MdImageStepKeeps(t4);
    MdImageStepKeeps(t3);
    MdImageStepKeeps(t2);
    MdImageStepKeeps(t1);
    MdImageStepKeeps(t);
  }

  /** One pass can join the two halves around a removed image into a new image. */
  lemma MdImageStepRecreates(s: string)
    requires s == "!![a](b)[c](d)"
    ensures StripMdImages(s) == "![c](d)"
    ensures MatchMdImage(StripMdImages(s)).Some?
  {
    var s1 := s[1..];
    ShortImage(s1);
    NoImageIn(s1[7..]);
    assert StripMdImages(s1) == [] + StripMdImages(s1[7..]);
    assert s[1] == '!';
    MdImageStepKeeps(s);
    ShortImage("![c](d)");
  }

  // ----------------------------------------------------------------------
  // Step 3: `<img[^>]*>` (line 34). `[^>]` also matches a newline.

  /** Index of the first `c` in `t`. */
  function FirstIndex(t: string, c: char): (r: Option<nat>)
    ensures r.Some? ==> r.value < |t| && t[r.value] == c && c !in t[..r.value]
    ensures r.None? ==> c !in t
    decreases |t|
  {
    if t == [] then None
    else if t[0] == c then Some(0)
    else match FirstIndex(t[1..], c)
      case Some(j) =>
        assert t[..j + 1] == [t[0]] + t[1..][..j];
        Some(j + 1)
      case None =>
        assert t == [t[0]] + t[1..];
        None
  }

  /** `<img[^>]*>` at the start of `s`: `<img` and everything up to the first `>`. */
  function MatchImgTag(s: string): (r: Option<nat>)
    ensures r.Some? ==> 5 <= r.value <= |s| && s[..4] == "<img" && s[r.value - 1] == '>' && '>' !in s[4..r.value - 1]
    ensures r.None? ==> |s| < 4 || s[..4] != "<img" || '>' !in s[4..]
  {
    if |s| >= 4 && s[..4] == "<img" then
      match FirstIndex(s[4..], '>')
      case Some(j) =>
        assert s[4..4 + j] == s[4..][..j];
        Some(4 + j + 1)
      case None => None
    else None
  }

  function StripImgTags(s: string): string
  {
    Sub(MatchImgTag, [], s)
  }

  /** The HTML image step only deletes characters. */
  lemma ImgTagStepDeletes(s: string)
    ensures IsSubsequence(StripImgTags(s), s)
  {
    SubDeletes(MatchImgTag, s);
  }

  /** Where `<img` does not start the text, its first character is kept. */
  lemma ImgTagStepKeeps(s: string)
    requires s != [] && (|s| < 4 || s[..4] != "<img")
    ensures StripImgTags(s) == [s[0]] + StripImgTags(s[1..])
  {
  }

  /** `g>` holds no `<img` tag. */
  lemma NoImgTagIn(t: string)
    requires t == "g>"
    ensures StripImgTags(t) == t
  {
    ImgTagStepKeeps(t);
    ImgTagStepKeeps(t[1..]);
    assert t[1..][1..] == [];
  }

  /** One pass can join the text around a removed `<img>` into a new one. */
  /** The tag `<img>` at the start of `<img>g>` is removed. */
  lemma ImgTagTail(u: string)
    requires u == "<img>g>"
    ensures StripImgTags(u) == "g>"
  {
    assert u[..4] == "<img" && u[4..][0] == '>';
    assert MatchImgTag(u) == Some(5);
    NoImgTagIn(u[5..]);
    assert StripImgTags(u) == [] + StripImgTags(u[5..]);
  }

  lemma ImgTagStepRecreates(s: string)
    requires s == "<im<img>g>"
    ensures StripImgTags(s) == "<img>"
    ensures MatchImgTag(StripImgTags(s)).Some?
  {
    var u := s[3..];
    ImgTagTail(u);
    assert s[..4][3] == '<' && s[1..][..4][0] == 'i' && s[2..][..4][0] == 'm';
    ImgTagStepKeeps(s);
    ImgTagStepKeeps(s[1..]);
    ImgTagStepKeeps(s[2..]);
    assert s[1..][1..] == s[2..] && s[2..][1..] == u;
    var r := "<img>";
    assert r[..4] == "<img" && r[4..][0] == '>';
  }

  // ----------------------------------------------------------------------
  // Step 4: `http\S+|www\S+|https\S+` (line 37).

  /** `p\S+` can start the text: `p` followed by a non-whitespace character. */
  predicate StartsWord(t: string, p: string)
  {
    |t| > |p| && t[..|p|] == p && !IsSpace(t[|p|])
  }

  predicate UrlAt(t: string)
  {
    StartsWord(t, "http") || StartsWord(t, "www") || StartsWord(t, "https")
  }

  /** The third alternative never matches where the first does not: `https\S+`
      is also `http` followed by `s\S*`. */
  lemma HttpsAlternativeRedundant(t: string)
    ensures UrlAt(t) <==> StartsWord(t, "http") || StartsWord(t, "www")
  {
    if StartsWord(t, "https") {
      assert t[..4] == t[..5][..4];
      assert t[4] == t[..5][4] == 's';
    }
  }

  /** Whichever alternative matches, its greedy `\S+` runs to the end of the
      leading non-whitespace run. */
  function MatchUrl(t: string): (r: Option<nat>)
    ensures r.Some? <==> UrlAt(t)
    ensures r.Some? ==> r.value == NonSpaceRun(t)
  {
    if UrlAt(t) then Some(NonSpaceRun(t)) else None
  }

  function StripUrls(s: string): string
  {
    Sub(MatchUrl, [], s)
  }

  /** A prefix of non-whitespace characters lies inside the leading run. */
  lemma {:induction false} RunCovers(t: string, n: nat)
    requires n <= |t|
    requires forall k :: 0 <= k < n ==> !IsSpace(t[k])
    ensures n <= NonSpaceRun(t)
    decreases n
  {
    if n > 0 {
      assert NotSpace(t[0]);
      assert forall k :: 0 <= k < n - 1 ==> t[1..][k] == t[k + 1];
      RunCovers(t[1..], n - 1);
      assert NonSpaceRun(t) == 1 + NonSpaceRun(t[1..]);
    }
  }

  /** A word start `p\S` inside the leading run of `u` survives extending the run. */
  lemma StartsWordExtends(u: string, t: string, p: string)
    requires StartsWord(u, p) && RunPrefixOf(u, t)
    requires forall k :: 0 <= k < |p| ==> !IsSpace(p[k])
    ensures StartsWord(t, p)
  {
    forall k | 0 <= k < |p| + 1 ensures !IsSpace(u[k]) {
      if k < |p| {
        assert u[k] == u[..|p|][k];
      }
    }
    RunCovers(u, |p| + 1);
    var n := NonSpaceRun(u);
    assert u[..n] == t[..n];
    assert forall k :: 0 <= k < |p| + 1 ==> u[k] == u[..n][k] == t[..n][k] == t[k];
    assert t[..|p|] == u[..|p|];
  }

  lemma UrlIsRunMatcher()
    ensures RunMatcher(MatchUrl)
  {
    forall t | MatchUrl(t).Some? ensures 0 < NonSpaceRun(t) {
      HttpsAlternativeRedundant(t);
      assert t[0] == 'h' || t[0] == 'w' by {
        if StartsWord(t, "www") { assert t[0] == t[..3][0]; }
        else { assert t[0] == t[..4][0]; }
      }
      RunCovers(t, 1);
    }
    forall u, t | MatchUrl(u).Some? && RunPrefixOf(u, t) ensures MatchUrl(t).Some? {
      HttpsAlternativeRedundant(u);
      if StartsWord(u, "www") { StartsWordExtends(u, t, "www"); }
      else { StartsWordExtends(u, t, "http"); }
    }
  }

  /** After the URL step no URL pattern matches anywhere in the text. */
  lemma UrlStepLeavesNoUrl(s: string)
    ensures forall i :: 0 <= i < |StripUrls(s)| ==> !UrlAt(StripUrls(s)[i..])
  {
    UrlIsRunMatcher();
    RunFree(MatchUrl, s);
  }

  // ----------------------------------------------------------------------
  // Step 5: `\S+@\S+` (line 40).

  /** `\S+@\S+` at the start of `t`: the first `\S+` backtracks from the end
      of the leading run to an `@` that has a non-whitespace character on
      both sides; the second `\S+` then runs to the end of that run. */
  function MatchEmail(t: string): (r: Option<nat>)
    ensures r.Some? <==> NonSpaceRun(t) >= 3 && '@' in t[1..NonSpaceRun(t) - 1]
    ensures r.Some? ==> r.value == NonSpaceRun(t)
  {
    var n := NonSpaceRun(t);
    if n >= 3 && '@' in t[1..n - 1] then Some(n) else None
  }

  function StripEmails(s: string): string
  {
    Sub(MatchEmail, [], s)
  }

  lemma EmailIsRunMatcher()
    ensures RunMatcher(MatchEmail)
  {
    forall u, t | MatchEmail(u).Some? && RunPrefixOf(u, t) ensures MatchEmail(t).Some? {
      var nu, nt := NonSpaceRun(u), NonSpaceRun(t);
      var k :| 0 <= k < nu - 2 && u[1..nu - 1][k] == '@';
      assert u[k + 1] == u[..nu][k + 1] == t[..nu][k + 1] == t[k + 1];
      assert t[1..nt - 1][k] == '@';
    }
  }

  /** After the e-mail step no `\S+@\S+` matches anywhere in the text. */
  lemma EmailStepLeavesNoEmail(s: string)
    ensures forall i :: 0 <= i < |StripEmails(s)| ==> MatchEmail(StripEmails(s)[i..]).None?
  {
    EmailIsRunMatcher();
    RunFree(MatchEmail, s);
  }

  // ----------------------------------------------------------------------
  // Step 6: `#\w+` (line 43).

  /** `#\w+` at the start of `t`. */
  function MatchHashtag(alnum: char -> bool, t: string): (r: Option<nat>)
    ensures r.Some? ==> 2 <= r.value <= |t| && t[0] == '#'
    ensures r.Some? ==> forall k :: 1 <= k < r.value ==> IsWordChar(alnum, t[k])
    ensures r.Some? && r.value < |t| ==> !IsWordChar(alnum, t[r.value])
    ensures r.None? ==> t == [] || t[0] != '#' || |t| < 2 || !IsWordChar(alnum, t[1])
  {
    if |t| >= 2 && t[0] == '#' && IsWordChar(alnum, t[1]) then
      var w := Run(c => IsWordChar(alnum, c), t[1..]);
      assert forall k :: 1 <= k < 1 + w ==> t[k] == t[1..][k - 1];
      Some(1 + w)
    else None
  }

  function HashtagMatcher(alnum: char -> bool): Matcher
  {
    t => MatchHashtag(alnum, t)
  }

  function StripHashtags(alnum: char -> bool, s: string): string
  {
    Sub(HashtagMatcher(alnum), [], s)
  }

  /** No `#` is immediately followed by a word character. */
  predicate HashtagFree(alnum: char -> bool, r: string)
  {
    forall i :: 0 <= i < |r| - 1 && r[i] == '#' ==> !IsWordChar(alnum, r[i + 1])
  }

  /** Text starting with a non-word character still does after the hashtag step. */
  lemma {:induction false} HashtagStepStartsNonWord(alnum: char -> bool, t: string)
    requires t != [] && !IsWordChar(alnum, t[0])
    ensures StripHashtags(alnum, t) == [] || !IsWordChar(alnum, StripHashtags(alnum, t)[0])
    decreases |t|
  {
    var m := HashtagMatcher(alnum);
    if Matches(m, t) {
      var n := m(t).value;
      assert StripHashtags(alnum, t) == [] + StripHashtags(alnum, t[n..]);
      if n < |t| {
        HashtagStepStartsNonWord(alnum, t[n..]);
      }
    } else {
      assert StripHashtags(alnum, t) == [t[0]] + StripHashtags(alnum, t[1..]);
    }
  }

  /** After the hashtag step no `#` is immediately followed by a word character. */
  lemma {:induction false} HashtagStepLeavesNoHashtag(alnum: char -> bool, s: string)
    ensures HashtagFree(alnum, StripHashtags(alnum, s))
    decreases |s|
  {
    var m := HashtagMatcher(alnum);
    var r := StripHashtags(alnum, s);
    if s == [] {
    } else if Matches(m, s) {
      var n := m(s).value;
      HashtagStepLeavesNoHashtag(alnum, s[n..]);
      assert r == [] + StripHashtags(alnum, s[n..]) == StripHashtags(alnum, s[n..]);
    } else {
      var r1 := StripHashtags(alnum, s[1..]);
      HashtagStepLeavesNoHashtag(alnum, s[1..]);
      assert r == [s[0]] + r1;
      forall i | 0 <= i < |r| - 1 && r[i] == '#' ensures !IsWordChar(alnum, r[i + 1]) {
        if i == 0 {
          assert |s| >= 2;
          assert !IsWordChar(alnum, s[1]);
          HashtagStepStartsNonWord(alnum, s[1..]);
        } else {
          assert r[i] == r1[i - 1] && r[i + 1] == r1[i];
        }
      }
    }
  }

  /** The hashtag step is idempotent. */
  lemma StripHashtagsIdempotent(alnum: char -> bool, s: string)
    ensures StripHashtags(alnum, StripHashtags(alnum, s)) == StripHashtags(alnum, s)
  {
    var r := StripHashtags(alnum, s);
    var m := HashtagMatcher(alnum);
    HashtagStepLeavesNoHashtag(alnum, s);
    forall i | 0 <= i < |r| ensures Unchanged(m, [], r[i..]) {
      assert r[i..][0] == r[i];
      if i + 1 < |r| {
        assert r[i..][1] == r[i + 1];
      }
    }
    SubIdentity(m, [], r);
  }

  // ----------------------------------------------------------------------
  // Step 7: `re.sub(r'\s+', ' ', text).strip()` (line 46).

  /** `\s+` at the start of `t`. */
  function MatchSpaces(t: string): (r: Option<nat>)
    ensures r.Some? <==> t != [] && IsSpace(t[0])
    ensures r.Some? ==> r.value <= |t| && forall k :: 0 <= k < r.value ==> IsSpace(t[k])
    ensures r.Some? && r.value < |t| ==> !IsSpace(t[r.value])
  {
    if t != [] && IsSpace(t[0]) then Some(Run(IsSpace, t)) else None
  }

  function CollapseSpaces(s: string): string
  {
    Sub(MatchSpaces, " ", s)
  }

  /** `str.lstrip()`. */
  function TrimStart(s: string): (r: string)
    ensures |r| <= |s| && r == s[|s| - |r|..]
    ensures r != [] ==> !IsSpace(r[0])
    ensures forall i :: 0 <= i < |s| - |r| ==> IsSpace(s[i])
    decreases |s|
  {
    if s != [] && IsSpace(s[0]) then TrimStart(s[1..]) else s
  }

  /** `str.rstrip()`. */
  function TrimEnd(s: string): (r: string)
    ensures |r| <= |s| && r == s[..|r|]
    ensures r != [] ==> !IsSpace(r[|r| - 1])
    ensures forall i :: |r| <= i < |s| ==> IsSpace(s[i])
    decreases |s|
  {
    if s != [] && IsSpace(s[|s| - 1]) then TrimEnd(s[..|s| - 1]) else s
  }

  function NormalizeWhitespace(s: string): string
  {
    TrimEnd(TrimStart(CollapseSpaces(s)))
  }

  /** Every whitespace character is a plain space, and no two are adjacent. */
  predicate SingleSpaced(c: string)
  {
    (forall i :: 0 <= i < |c| && IsSpace(c[i]) ==> c[i] == ' ') &&
    (forall i :: 0 <= i < |c| - 1 && IsSpace(c[i]) ==> !IsSpace(c[i + 1]))
  }

  /** Every whitespace character is a single `' '` with non-whitespace on
      both sides (so there is none at either end). */
  predicate SpaceNormal(r: string)
  {
    forall i :: 0 <= i < |r| && IsSpace(r[i]) ==>
      r[i] == ' ' && 0 < i < |r| - 1 && !IsSpace(r[i - 1]) && !IsSpace(r[i + 1])
  }

  lemma {:induction false} CollapseSingleSpaced(s: string)
    ensures SingleSpaced(CollapseSpaces(s))
    ensures s != [] && !IsSpace(s[0]) ==> CollapseSpaces(s) != [] && CollapseSpaces(s)[0] == s[0]
    decreases |s|
  {
    var c := CollapseSpaces(s);
    if s == [] {
    } else if IsSpace(s[0]) {
      var n := MatchSpaces(s).value;
      var c1 := CollapseSpaces(s[n..]);
      CollapseSingleSpaced(s[n..]);
      assert c == " " + c1;
      forall i | 0 <= i < |c| - 1 && IsSpace(c[i]) ensures !IsSpace(c[i + 1]) {
        if i > 0 { assert c[i] == c1[i - 1] && c[i + 1] == c1[i]; }
      }
      forall i | 0 <= i < |c| && IsSpace(c[i]) ensures c[i] == ' ' {
        if i > 0 { assert c[i] == c1[i - 1]; }
      }
    } else {
      var c1 := CollapseSpaces(s[1..]);
      CollapseSingleSpaced(s[1..]);
      assert c == [s[0]] + c1;
      forall i | 0 <= i < |c| - 1 && IsSpace(c[i]) ensures !IsSpace(c[i + 1]) {
        assert c[i] == c1[i - 1] && c[i + 1] == c1[i];
      }
      forall i | 0 <= i < |c| && IsSpace(c[i]) ensures c[i] == ' ' {
        assert c[i] == c1[i - 1];
      }
    }
  }

  lemma SingleSpacedSlice(c: string, a: nat, b: nat)
    requires SingleSpaced(c) && a <= b <= |c|
    ensures SingleSpaced(c[a..b])
  {
    var s := c[a..b];
    assert forall i :: 0 <= i < |s| ==> s[i] == c[a + i];
    forall i | 0 <= i < |s| - 1 && IsSpace(s[i]) ensures !IsSpace(s[i + 1]) {
      assert s[i] == c[a + i] && s[i + 1] == c[a + i + 1];
    }
  }

  /** Single spacing with non-whitespace at both ends is the normal form. */
  lemma SpaceNormalFromEnds(r: string)
    requires SingleSpaced(r)
    requires r != [] ==> !IsSpace(r[0]) && !IsSpace(r[|r| - 1])
    ensures SpaceNormal(r)
  {
    forall i | 0 <= i < |r| && IsSpace(r[i])
      ensures r[i] == ' ' && 0 < i < |r| - 1 && !IsSpace(r[i - 1]) && !IsSpace(r[i + 1])
    {
      assert i != 0 && i != |r| - 1;
      var before, here := r[i - 1], r[i];
      assert IsSpace(before) ==> !IsSpace(here);
    }
  }

  /** After the whitespace step there is no leading or trailing whitespace and
      every whitespace character is a single `' '` between non-whitespace. */
  lemma WhitespaceStepNormal(s: string)
    ensures SpaceNormal(NormalizeWhitespace(s))
    ensures NormalizeWhitespace(s) != [] ==>
              !IsSpace(NormalizeWhitespace(s)[0]) && !IsSpace(NormalizeWhitespace(s)[|NormalizeWhitespace(s)| - 1])
  {
    var c := CollapseSpaces(s);
    CollapseSingleSpaced(s);
    var a, b := TrimmedSlice(c);
    SingleSpacedSlice(c, a, b);
    SpaceNormalFromEnds(c[a..b]);
  }

  /** `strip()` returns a slice of its input that neither starts nor ends
      with whitespace. */
  lemma TrimmedSlice(c: string) returns (a: nat, b: nat)
    ensures a <= b <= |c| && TrimEnd(TrimStart(c)) == c[a..b]
    ensures a < b ==> NotSpace(c[a]) && NotSpace(c[b - 1])
  {
    a := TrimStartAt(c);
    var n := TrimEndAt(c[a..]);
    b := a + n;
    SliceOfSlice(c, a, n);
    if 0 < n {
      assert c[a..][0] == c[a] && c[a..][n - 1] == c[b - 1];
    }
  }

  /** `lstrip()` drops a prefix and stops at a non-whitespace character. */
  lemma TrimStartAt(c: string) returns (a: nat)
    ensures a <= |c| && TrimStart(c) == c[a..]
    ensures a < |c| ==> NotSpace(c[a])
  {
    a := |c| - |TrimStart(c)|;
    if a < |c| {
      assert TrimStart(c)[0] == c[a];
    }
  }

  /** `rstrip()` keeps a prefix that ends in a non-whitespace character. */
  lemma TrimEndAt(t: string) returns (n: nat)
    ensures n <= |t| && TrimEnd(t) == t[..n]
    ensures 0 < n ==> NotSpace(t[n - 1]) && NotSpace(t[0]) == NotSpace(TrimEnd(t)[0])
  {
    n := |TrimEnd(t)|;
    if 0 < n {
      assert TrimEnd(t)[n - 1] == t[n - 1] && TrimEnd(t)[0] == t[0];
    }
  }

  /** A prefix of a suffix is a slice. */
  lemma SliceOfSlice(c: string, a: nat, n: nat)
    requires a + n <= |c|
    ensures c[a..][..n] == c[a..a + n]
  {
  }

  /** The whitespace step is idempotent. */
  lemma NormalizeWhitespaceIdempotent(s: string)
    ensures NormalizeWhitespace(NormalizeWhitespace(s)) == NormalizeWhitespace(s)
  {
    var r := NormalizeWhitespace(s);
    WhitespaceStepNormal(s);
    forall i | 0 <= i < |r| ensures Unchanged(MatchSpaces, " ", r[i..]) {
      if Matches(MatchSpaces, r[i..]) {
        assert r[i..][0] == r[i];
        assert IsSpace(r[i]) && !IsSpace(r[i..][1]);
        assert r[i..][..1] == " ";
      }
    }
    SubIdentity(MatchSpaces, " ", r);
  }

  // ----------------------------------------------------------------------
  // Step 8: `[^\x00-\x7F]+` (line 49).

  predicate IsNonAscii(c: char)
  {
    c > '\U{7F}'
  }

  /** `[^\x00-\x7F]+` at the start of `t`. */
  function MatchNonAscii(t: string): (r: Option<nat>)
    ensures r.Some? <==> t != [] && IsNonAscii(t[0])
    ensures r.Some? ==> r.value <= |t| && forall k :: 0 <= k < r.value ==> IsNonAscii(t[k])
  {
    if t != [] && IsNonAscii(t[0]) then Some(Run(IsNonAscii, t)) else None
  }

  function StripNonAscii(s: string): string
  {
    Sub(MatchNonAscii, [], s)
  }

  /** Reference definition: keep exactly the characters up to 0x7F, in order. */
  function AsciiFilter(s: string): (r: string)
    ensures forall i :: 0 <= i < |r| ==> r[i] <= '\U{7F}'
    decreases |s|
  {
    if s == [] then []
    else if IsNonAscii(s[0]) then AsciiFilter(s[1..])
    else [s[0]] + AsciiFilter(s[1..])
  }

  lemma {:induction false} AsciiFilterSkips(s: string, n: nat)
    requires n <= |s| && forall k :: 0 <= k < n ==> IsNonAscii(s[k])
    ensures AsciiFilter(s) == AsciiFilter(s[n..])
    decreases n
  {
    if n > 0 {
      AsciiFilterSkips(s[1..], n - 1);
      assert s[1..][n - 1..] == s[n..];
    }
  }

  lemma {:induction false} AsciiFilterKeepsAscii(s: string)
    requires forall i :: 0 <= i < |s| ==> s[i] <= '\U{7F}'
    ensures AsciiFilter(s) == s
    decreases |s|
  {
    if s != [] {
      AsciiFilterKeepsAscii(s[1..]);
    }
  }

  /** The non-ASCII step removes exactly the characters above 0x7F, keeping
      the order of the rest. */
  lemma {:induction false} StripNonAsciiIsFilter(s: string)
    ensures StripNonAscii(s) == AsciiFilter(s)
    decreases |s|
  {
    if s != [] {
      if Matches(MatchNonAscii, s) {
        var n := MatchNonAscii(s).value;
        StripNonAsciiIsFilter(s[n..]);
        AsciiFilterSkips(s, n);
        assert StripNonAscii(s) == [] + StripNonAscii(s[n..]);
      } else {
        StripNonAsciiIsFilter(s[1..]);
      }
    }
  }

  /** After the non-ASCII step every character is at most 0x7F, and the step
      is idempotent. */
  lemma NonAsciiStepAscii(s: string)
    ensures forall i :: 0 <= i < |StripNonAscii(s)| ==> StripNonAscii(s)[i] <= '\U{7F}'
    ensures StripNonAscii(StripNonAscii(s)) == StripNonAscii(s)
  {
    var r := StripNonAscii(s);
    StripNonAsciiIsFilter(s);
    StripNonAsciiIsFilter(r);
    AsciiFilterKeepsAscii(r);
  }

  /** Removing a non-ASCII word between two spaces leaves two spaces side by
      side: the whitespace property of step 7 does not survive step 8. */
  lemma NonAsciiBreaksSpacing()
    ensures SpaceNormal("a \U{E9} b")
    ensures StripNonAscii("a \U{E9} b") == "a  b"
    ensures !SpaceNormal(StripNonAscii("a \U{E9} b"))
  {
    AccentSpaced();
    StripNonAsciiIsFilter("a \U{E9} b");
    AccentFiltered();
    var r := "a  b";
    assert IsSpace(r[1]) && IsSpace(r[2]);
  }

  lemma AccentSpaced()
    ensures SpaceNormal("a \U{E9} b")
  {
    var s := "a \U{E9} b";
    assert NotSpace(s[0]) && NotSpace(s[2]) && NotSpace(s[4]);
  }

  lemma AccentFiltered()
    ensures AsciiFilter("a \U{E9} b") == "a  b"
  {
    var s := "a \U{E9} b";
    assert s[1..][1..] == s[2..] && s[2..][1..] == s[3..] && s[3..][1..] == s[4..];
    assert AsciiFilter(s[4..]) == "b";
    assert AsciiFilter(s[3..]) == " b";
    assert AsciiFilter(s[2..]) == " b";
    assert AsciiFilter(s[1..]) == "  b";
  }

  /** The hashtag step leaves `#—a` alone (the dash is not a word character),
      and the non-ASCII step then turns it into the hashtag `#a`. */
  lemma HashtagRecreatedByNonAsciiStep(alnum: char -> bool)
    requires !alnum('\U{2014}')
    ensures StripHashtags(alnum, "#\U{2014}a") == "#\U{2014}a"
    ensures StripNonAscii(StripHashtags(alnum, "#\U{2014}a")) == "#a"
    ensures !HashtagFree(alnum, StripNonAscii(StripHashtags(alnum, "#\U{2014}a")))
  {
    DashHashtagKept(alnum);
    StripNonAsciiIsFilter("#\U{2014}a");
    DashFiltered();
    var r := "#a";
    assert r[0] == '#' && IsWordChar(alnum, r[1]);
  }

  lemma DashHashtagKept(alnum: char -> bool)
    requires !alnum('\U{2014}')
    ensures StripHashtags(alnum, "#\U{2014}a") == "#\U{2014}a"
  {
    var s := "#\U{2014}a";
    var m := HashtagMatcher(alnum);
    forall i | 0 <= i < |s| ensures Unchanged(m, [], s[i..]) {
      assert s[i..][0] == s[i];
      if i == 0 {
        assert s[i..][1] == '\U{2014}';
        assert !IsWordChar(alnum, '\U{2014}');
      }
    }
    SubIdentity(m, [], s);
  }

  lemma DashFiltered()
    ensures AsciiFilter("#\U{2014}a") == "#a"
  {
    var s := "#\U{2014}a";
    assert s[1..][1..] == s[2..];
    assert AsciiFilter(s[2..]) == "a";
    assert AsciiFilter(s[1..]) == "a";
  }

  // ----------------------------------------------------------------------
  // Lowercasing, the language model, filtering and joining (lines 52-55).

  /** `str.lower()` on ASCII text (the only text it is ever given here). */
  function LowerChar(c: char): char
  {
    if 'A' <= c <= 'Z' then (c as int - 'A' as int + 'a' as int) as char else c
  }

  function Lower(s: string): string
  {
    seq(|s|, i requires 0 <= i < |s| => LowerChar(s[i]))
  }

  /** A spaCy token, as far as the filter looks at it. */
  datatype Token = Token(baseForm: string, isStop: bool, isPunct: bool)

  /** The language model: text to its token sequence. */
  type Nlp = string -> seq<Token>

  predicate Kept(t: Token)
  {
    !t.isStop && !t.isPunct
  }

  /** `[token.lemma_ for token in doc if not token.is_stop and not token.is_punct]`. */
  function KeptLemmas(ts: seq<Token>): (r: seq<string>)
    ensures |r| <= |ts|
    decreases |ts|
  {
    if ts == [] then []
    else (if Kept(ts[0]) then [ts[0].baseForm] else []) + KeptLemmas(ts[1..])
  }

  /** `sep.join(xs)`. */
  function Join(xs: seq<string>, sep: string): string
    decreases |xs|
  {
    if xs == [] then []
    else if |xs| == 1 then xs[0]
    else xs[0] + sep + Join(xs[1..], sep)
  }

  /** Python's `s.split(' ')`: the pieces between single spaces, possibly
      empty. The source never splits; this is the inverse against which the
      join is stated. */
  function SplitSpace(s: string): (r: seq<string>)
    ensures |r| >= 1
    decreases |s|
  {
    if s == [] then [[]]
    else if s[0] == ' ' then [[]] + SplitSpace(s[1..])
    else
      var rest := SplitSpace(s[1..]);
      [[s[0]] + rest[0]] + rest[1..]
  }

  /** The chain of `re.sub` rewrites, lines 30-49. */
  function CleanText(alnum: char -> bool, s: string): string
  {
    StripNonAscii(NormalizeWhitespace(StripHashtags(alnum,
      StripEmails(StripUrls(StripImgTags(StripMdImages(StripTags(s))))))))
  }

  /** The text handed to the language model (line 52). */
  function TokenizerInput(alnum: char -> bool, s: string): string
  {
    Lower(CleanText(alnum, s))
  }

  /** `preprocess_text(text, nlp)`; non-string input gives "". */
  function Preprocess(text: Value, nlp: Nlp, alnum: char -> bool): (r: string)
    ensures !text.Str? ==> r == ""
  {
    if !text.Str? then ""
    else Join(KeptLemmas(nlp(TokenizerInput(alnum, text.s))), " ")
  }

  // ----------------------------------------------------------------------
  // Lemmas about the last stage.

  /** The text handed to the language model is lowercase and ASCII-only. */
  lemma TokenizerInputLowerAscii(alnum: char -> bool, s: string)
    ensures forall i :: 0 <= i < |TokenizerInput(alnum, s)| ==>
              TokenizerInput(alnum, s)[i] <= '\U{7F}' && !('A' <= TokenizerInput(alnum, s)[i] <= 'Z')
  {
    var w := NormalizeWhitespace(StripHashtags(alnum,
      StripEmails(StripUrls(StripImgTags(StripMdImages(StripTags(s)))))));
    NonAsciiStepAscii(w);
    LowerAscii(StripNonAscii(w));
  }

  /** Lowercasing ASCII text gives ASCII text without capitals. */
  lemma LowerAscii(c: string)
    requires forall i :: 0 <= i < |c| ==> c[i] <= '\U{7F}'
    ensures forall i :: 0 <= i < |Lower(c)| ==> Lower(c)[i] <= '\U{7F}' && !('A' <= Lower(c)[i] <= 'Z')
  {
  }

  /** The filter keeps, in token order, the lemma of each token that is
      neither a stop word nor punctuation. */
  lemma {:induction false} KeptLemmasAppend(a: seq<Token>, b: seq<Token>)
    ensures KeptLemmas(a + b) == KeptLemmas(a) + KeptLemmas(b)
    decreases |a|
  {
    if a == [] {
      assert a + b == b;
    } else {
      var h := if Kept(a[0]) then [a[0].baseForm] else [];
      var ka, kb := KeptLemmas(a[1..]), KeptLemmas(b);
      assert (a + b)[0] == a[0] && (a + b)[1..] == a[1..] + b;
      KeptLemmasAppend(a[1..], b);
      assert KeptLemmas(a + b) == h + (ka + kb);
      assert KeptLemmas(a) == h + ka;
      assert h + (ka + kb) == (h + ka) + kb;
    }
  }

  lemma {:induction false} KeptLemmasMembers(ts: seq<Token>, x: string)
    ensures x in KeptLemmas(ts) <==> exists i :: 0 <= i < |ts| && Kept(ts[i]) && ts[i].baseForm == x
    decreases |ts|
  {
    if ts != [] {
      KeptLemmasMembers(ts[1..], x);
      if x in KeptLemmas(ts[1..]) {
        var i :| 0 <= i < |ts[1..]| && Kept(ts[1..][i]) && ts[1..][i].baseForm == x;
        assert ts[i + 1] == ts[1..][i];
      }
      if exists i :: 0 <= i < |ts| && Kept(ts[i]) && ts[i].baseForm == x {
        var i :| 0 <= i < |ts| && Kept(ts[i]) && ts[i].baseForm == x;
        if i > 0 { assert ts[1..][i - 1] == ts[i]; }
      }
    }
  }

  /** When every token is a stop word or punctuation the result is "". */
  lemma {:induction false} PreprocessAllFiltered(text: string, nlp: Nlp, alnum: char -> bool)
    requires forall i :: 0 <= i < |nlp(TokenizerInput(alnum, text))| ==> !Kept(nlp(TokenizerInput(alnum, text))[i])
    ensures Preprocess(Str(text), nlp, alnum) == ""
  {
    var ts := nlp(TokenizerInput(alnum, text));
    NoneKept(ts);
  }

  /** The result for a string splits back, on single spaces, into the lemmas
      of the kept tokens in token order, provided some token is kept and no
      kept lemma contains a space. */
  lemma PreprocessWords(text: string, nlp: Nlp, alnum: char -> bool)
    requires KeptLemmas(nlp(TokenizerInput(alnum, text))) != []
    requires forall i :: 0 <= i < |KeptLemmas(nlp(TokenizerInput(alnum, text)))| ==>
               ' ' !in KeptLemmas(nlp(TokenizerInput(alnum, text)))[i]
    ensures SplitSpace(Preprocess(Str(text), nlp, alnum)) == KeptLemmas(nlp(TokenizerInput(alnum, text)))
  {
    SplitJoin(KeptLemmas(nlp(TokenizerInput(alnum, text))));
  }

  lemma {:induction false} NoneKept(ts: seq<Token>)
    requires forall i :: 0 <= i < |ts| ==> !Kept(ts[i])
    ensures KeptLemmas(ts) == []
    decreases |ts|
  {
    if ts != [] {
      assert forall i :: 0 <= i < |ts[1..]| ==> ts[1..][i] == ts[i + 1];
      NoneKept(ts[1..]);
    }
  }

  /** Splitting a single-space join gives the pieces back when none of them
      contains a space. */
  lemma {:induction false} SplitJoin(xs: seq<string>)
    requires xs != []
    requires forall i :: 0 <= i < |xs| ==> ' ' !in xs[i]
    ensures SplitSpace(Join(xs, " ")) == xs
    decreases |xs|
  {
    if |xs| == 1 {
      SplitNoSpace(xs[0]);
    } else {
      SplitJoin(xs[1..]);
      SplitConcat(xs[0], Join(xs[1..], " "));
      assert xs == [xs[0]] + xs[1..];
    }
  }

  lemma {:induction false} SplitNoSpace(s: string)
    requires ' ' !in s
    ensures SplitSpace(s) == [s]
    decreases |s|
  {
    if s != [] {
      assert ' ' !in s[1..] by { assert forall c :: c in s[1..] ==> c in s; }
      SplitNoSpace(s[1..]);
      assert s == [s[0]] + s[1..];
    }
  }

  lemma {:induction false} SplitConcat(a: string, b: string)
    requires ' ' !in a
    ensures SplitSpace(a + " " + b) == [a] + SplitSpace(b)
    decreases |a|
  {
    if a == [] {
      assert a + " " + b == [' '] + b;
      assert (a + " " + b)[1..] == b;
    } else {
      assert ' ' !in a[1..] by { assert forall c :: c in a[1..] ==> c in a; }
      SplitConcat(a[1..], b);
      assert (a + " " + b)[1..] == a[1..] + " " + b;
      assert a == [a[0]] + a[1..];
    }
  }

  /** Joining the pieces of `s.split(' ')` with single spaces gives `s` back. */
  lemma {:induction false} JoinSplit(s: string)
    ensures Join(SplitSpace(s), " ") == s
    decreases |s|
  {
    if s == [] {
    } else if s[0] == ' ' {
      JoinSplit(s[1..]);
      var rest := SplitSpace(s[1..]);
      assert SplitSpace(s) == [[]] + rest;
      assert ([[]] + rest)[1..] == rest;
      assert s == [] + " " + s[1..];
    } else {
      JoinSplit(s[1..]);
      var rest := SplitSpace(s[1..]);
      var sp := SplitSpace(s);
      assert sp == [[s[0]] + rest[0]] + rest[1..];
      if |rest| == 1 {
        assert s == [s[0]] + rest[0];
      } else {
        assert sp[1..] == rest[1..];
        assert Join(rest, " ") == rest[0] + " " + Join(rest[1..], " ");
        assert s == [s[0]] + s[1..];
      }
    }
  }
}
