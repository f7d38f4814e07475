/**
  Properties of the subtitle markup sanitizer: what each pass keeps, what
  it rewrites, and how the passes compose on plain text.
 */
module MarkupProperties {
  import opened Wrappers
  import opened Ascii
  import opened MarkupUtils

  // ---------------------------------------------------------------------
  // Helpers on occurrences
  // ---------------------------------------------------------------------

  /** An occurrence in the tail is an occurrence in the whole text. */
  lemma ContainsTail(s: string, p: string)
    requires |s| > 0
    ensures Contains(s[1..], p) ==> Contains(s, p)
  {
    if Contains(s[1..], p) {
      var i :| 0 <= i <= |s[1..]| && OccursAt(s[1..], p, i);
      assert s[i + 1..i + 1 + |p|] == s[1..][i..i + |p|];
      assert OccursAt(s, p, i + 1);
    }
  }

  /** A pattern that starts with '&' occurs only in a text that holds one. */
  lemma ContainsOnlyAfterAmp(s: string, p: string)
    requires |p| > 0 && p[0] == '&'
    ensures Contains(s, p) ==> '&' in s
  {
    if Contains(s, p) {
      var i :| 0 <= i <= |s| && OccursAt(s, p, i);
      assert s[i] == p[0];
    }
  }

  /** A run of `inRun` characters of length `n` from `q`, ended by a character outside it, ends where it should. */
  lemma {:induction false} RunEndAt(s: string, q: nat, n: nat, inRun: char -> bool)
    requires q + n <= |s|
    requires forall x :: q <= x < q + n ==> inRun(s[x])
    requires q + n < |s| ==> !inRun(s[q + n])
    ensures RunEnd(s, q, inRun) == q + n
    decreases n
  {
    if n > 0 {
      RunEndAt(s, q + 1, n - 1, inRun);
    }
  }

  // ---------------------------------------------------------------------
  // Unescaping
  // ---------------------------------------------------------------------

  /**
    The escaped-tag matcher reaches `t` in `tags`: no tag before it is a
    prefix of `t` or has `t` as a prefix, so none of them can match where
    `t` is written.
   */
  predicate ReachesTag(tags: seq<string>, t: string)
    decreases |tags|
  {
    |tags| > 0 && (tags[0] == t || (!StartsWith(t, tags[0]) && !StartsWith(tags[0], t) && ReachesTag(tags[1..], t)))
  }

  /** Two tags that differ in their first or second character: neither is a prefix of the other. */
  predicate Apart(a: string, b: string) {
    |a| > 0 && |b| > 0 && (a[0] != b[0] || (|a| > 1 && |b| > 1 && a[1] != b[1]))
  }

  /** `a` is kept apart from every tag of `v`. */
  predicate ApartFromAll(a: string, v: seq<string>)
    decreases |v|
  {
    |v| == 0 || (Apart(a, v[0]) && ApartFromAll(a, v[1..]))
  }

  /** Every two tags of `v` are kept apart, so neither is a prefix of the other. */
  predicate PairwiseApart(v: seq<string>)
    decreases |v|
  {
    |v| == 0 || (ApartFromAll(v[0], v[1..]) && PairwiseApart(v[1..]))
  }

  /** A tag kept apart from every tag of a pairwise-apart list extends it at the front. */
  lemma PairwiseCons(a: string, w: seq<string>)
    requires forall b :: b in w ==> Apart(a, b)
    requires PairwiseApart(w)
    ensures PairwiseApart([a] + w)
  {
    ApartFromEvery(a, w);
    assert ([a] + w)[1..] == w;
  }

  /** A tag kept apart from each tag of `w` is kept apart from all of it. */
  lemma {:induction false} ApartFromEvery(a: string, w: seq<string>)
    requires forall b :: b in w ==> Apart(a, b)
    ensures ApartFromAll(a, w)
    decreases |w|
  {
    if |w| > 0 {
      assert w[0] in w;
      forall b | b in w[1..] ensures Apart(a, b) {
        assert b in w;
      }
      ApartFromEvery(a, w[1..]);
    }
  }

  /** A tag kept apart from all of `v` is kept apart from each tag in it. */
  lemma {:induction false} ApartFromMember(a: string, v: seq<string>, t: string)
    requires ApartFromAll(a, v) && t in v
    ensures Apart(a, t)
    decreases |v|
  {
    if v[0] != t {
      assert t in v[1..];
      ApartFromMember(a, v[1..], t);
    }
  }

  /** In a list of pairwise-apart tags the matcher reaches every tag. */
  lemma {:induction false} ReachesApart(v: seq<string>, t: string)
    requires PairwiseApart(v) && t in v
    ensures ReachesTag(v, t)
    decreases |v|
  {
    if v[0] != t {
      assert t in v[1..];
      ApartFromMember(v[0], v[1..], t);
      ReachesApart(v[1..], t);
    }
  }

  /** Every SubRip tag is reached by the escaped-tag matcher. */
  lemma SrtTagsReached(t: string)
    requires t in SrtTags
    ensures ReachesTag(SrtTags, t)
  {
    PairwiseCons("b", ["u"]);
    PairwiseCons("i", ["b", "u"]);
    ReachesApart(SrtTags, t);
  }

  /** Every WebVTT tag is reached by the escaped-tag matcher. */
  lemma VttTagsReached(t: string)
    requires t in VttTags
    ensures ReachesTag(VttTags, t)
  {
    PairwiseCons("ruby", ["rt"]);
    PairwiseCons("v", ["ruby", "rt"]);
    PairwiseCons("u", ["v", "ruby", "rt"]);
    PairwiseCons("c", ["u", "v", "ruby", "rt"]);
    PairwiseCons("b", ["c", "u", "v", "ruby", "rt"]);
    PairwiseCons("i", ["b", "c", "u", "v", "ruby", "rt"]);
    ReachesApart(VttTags, t);
  }

  /** Every tag of the list is non-empty and starts with a letter. */
  predicate LetterLed(tags: seq<string>) {
    forall i :: 0 <= i < |tags| ==> |tags[i]| > 0 && IsLetter(tags[i][0])
  }

  /** Every allowed tag of either format starts with a letter. */
  lemma TagsStartWithLetter(isWebvtt: bool)
    ensures LetterLed(AllowedTags(isWebvtt))
  {
    var v := AllowedTags(isWebvtt);
    forall i | 0 <= i < |v| ensures |v[i]| > 0 && IsLetter(v[i][0]) {
      if isWebvtt {
        assert v == ["i", "b", "c", "u", "v", "ruby", "rt"];
        assert v[i][0] in "ibcuvr";
      } else {
        assert v[i][0] in "ibu";
      }
    }
  }

  /** The allowed tags are lower-case letters only, so the stack holds them as written. */
  lemma TagsAreLowerCase(isWebvtt: bool, t: string)
    requires t in AllowedTags(isWebvtt)
    ensures forall j :: 0 <= j < |t| ==> IsLower(t[j])
    ensures LowerString(t) == t
  {
    var v := AllowedTags(isWebvtt);
    var k :| 0 <= k < |v| && v[k] == t;
    forall j | 0 <= j < |t| ensures IsLower(t[j]) {
      if isWebvtt {
        assert v == ["i", "b", "c", "u", "v", "ruby", "rt"];
        assert t in {"i", "b", "c", "u", "v", "ruby", "rt"};
      } else {
        assert v == ["i", "b", "u"];
        assert t in {"i", "b", "u"};
      }
    }
  }

  /** Every allowed tag of either format is reached, and starts with a letter. */
  lemma AllowedTagsReached(isWebvtt: bool, t: string)
    requires t in AllowedTags(isWebvtt)
    ensures ReachesTag(AllowedTags(isWebvtt), t) && |t| > 0 && IsLetter(t[0])
  {
    if isWebvtt {
      VttTagsReached(t);
    } else {
      SrtTagsReached(t);
    }
    TagsStartWithLetter(isWebvtt);
    var k :| 0 <= k < |AllowedTags(isWebvtt)| && AllowedTags(isWebvtt)[k] == t;
  }

  /** `attr` is a word of ATTRIBUTE_REGEX: an optional whitespace character, then class characters. */
  predicate AttrText(attr: string) {
    |attr| == 0 || ((IsSpace(attr[0]) || IsAttrChar(attr[0])) && forall i :: 1 <= i < |attr| ==> IsAttrChar(attr[i]))
  }

  /** ATTRIBUTE_REGEX matched from `q` spans exactly `attr` when the character after it can neither start nor extend it. */
  lemma AttrEndAt(s: string, q: nat, attr: string)
    requires q + |attr| < |s| && s[q..q + |attr|] == attr
    requires AttrText(attr)
    requires !IsSpace(s[q + |attr|]) && !IsAttrChar(s[q + |attr|])
    ensures AttrEnd(s, q) == q + |attr|
  {
    if |attr| > 0 {
      assert s[q] == attr[0];
    }
    var q' := if q < |s| && IsSpace(s[q]) then q + 1 else q;
    forall x | q' <= x < q + |attr|
      ensures IsAttrChar(s[x])
    {
      assert s[x] == attr[x - q];
    }
    RunEndAt(s, q', q + |attr| - q', IsAttrChar);
  }

  /** The pattern matches with the first tag of the list when that tag is `t`. */
  lemma MatchFirstTag(s: string, p: nat, closing: bool, tags: seq<string>, t: string, attr: string)
    requires |tags| > 0 && tags[0] == t
    requires p + |t| + |attr| + 4 <= |s|
    requires s[p..p + |t|] == t && s[p + |t|..p + |t| + |attr|] == attr
    requires s[p + |t| + |attr|..p + |t| + |attr| + 4] == "&gt;"
    requires AttrText(attr)
    ensures MatchEscapedTagFrom(s, p, closing, tags) == Some(EscapedTag(closing, t, attr, p + |t| + |attr| + 4))
  {
    MatchFirstFacts(s, p, t, attr);
    MatchFirstUnfold(s, p, closing, tags, t, p + |t| + |attr|);
  }

  /** The layout MatchFirstTag requires satisfies the three conditions of one step of the pattern. */
  lemma MatchFirstFacts(s: string, p: nat, t: string, attr: string)
    requires p + |t| + |attr| + 4 <= |s|
    requires s[p..p + |t|] == t && s[p + |t|..p + |t| + |attr|] == attr
    requires s[p + |t| + |attr|..p + |t| + |attr| + 4] == "&gt;"
    requires AttrText(attr)
    ensures StartsWith(s[p..], t) && AttrEnd(s, p + |t|) == p + |t| + |attr| && StartsWith(s[p + |t| + |attr|..], "&gt;")
  {
    assert StartsWith(s[p..], t) by { assert s[p..][..|t|] == s[p..p + |t|]; }
    GtAt(s, p + |t| + |attr|);
    AttrEndAt(s, p + |t|, attr);
  }

  /** `&gt;` at `k` starts with '&', which neither starts nor extends ATTRIBUTE_REGEX. */
  lemma GtAt(s: string, k: nat)
    requires k + 4 <= |s| && s[k..k + 4] == "&gt;"
    ensures s[k] == '&' && !IsSpace(s[k]) && !IsAttrChar(s[k]) && StartsWith(s[k..], "&gt;")
  {
    assert s[k] == s[k..k + 4][0];
    assert s[k..][..4] == s[k..k + 4];
  }

  /** One step of the pattern: the first tag `t` matches, the attribute text ends at `k`, and `&gt;` follows. */
  lemma MatchFirstUnfold(s: string, p: nat, closing: bool, tags: seq<string>, t: string, k: nat)
    requires |tags| > 0 && tags[0] == t && p + |t| <= k <= |s| && StartsWith(s[p..], t)
    requires AttrEnd(s, p + |t|) == k && StartsWith(s[k..], "&gt;")
    ensures MatchEscapedTagFrom(s, p, closing, tags) == Some(EscapedTag(closing, t, s[p + |t|..k], k + 4))
  {
  }

  /** Two prefixes of one text are prefixes of each other. */
  lemma PrefixesCompare(x: string, t: string, u: string)
    requires StartsWith(x, t)
    ensures StartsWith(x, u) ==> StartsWith(t, u) || StartsWith(u, t)
  {
    if StartsWith(x, u) {
      if |u| <= |t| {
        assert t[..|u|] == x[..|u|];
      } else {
        assert u[..|t|] == x[..|t|];
      }
    }
  }

  /** The pattern skips every tag before `t` and matches with `t`. */
  lemma {:induction false} MatchFromPicks(s: string, p: nat, closing: bool, tags: seq<string>, t: string, attr: string)
    requires ReachesTag(tags, t)
    requires p + |t| + |attr| + 4 <= |s|
    requires s[p..p + |t|] == t && s[p + |t|..p + |t| + |attr|] == attr
    requires s[p + |t| + |attr|..p + |t| + |attr| + 4] == "&gt;"
    requires AttrText(attr)
    ensures MatchEscapedTagFrom(s, p, closing, tags) == Some(EscapedTag(closing, t, attr, p + |t| + |attr| + 4))
    decreases |tags|
  {
    assert StartsWith(s[p..], t) by { assert s[p..][..|t|] == s[p..p + |t|]; }
    if tags[0] == t {
      MatchFirstTag(s, p, closing, tags, t, attr);
    } else {
      PrefixesCompare(s[p..], t, tags[0]);
      MatchFromPicks(s, p, closing, tags[1..], t, attr);
    }
  }

  /** `n` spaces, as `\ *` matches them. */
  function Spaces(n: nat): (r: string)
    ensures |r| == n && forall i :: 0 <= i < n ==> r[i] == ' '
  {
    seq(n, _ => ' ')
  }

  /**
    The text an escaped tag occupies: `&lt;`, the optional '/', any number
    of spaces, the tag, its attribute text, `&gt;`.
   */
  function EscapedForm(closing: bool, spaces: nat, t: string, attr: string): string {
    "&lt;" + (if closing then "/" else "") + Spaces(spaces) + t + attr + "&gt;"
  }

  /**
    The head of an escaped tag, `&lt;`, the optional '/' and the spaces, is
    read as such when what follows starts with neither a space nor a '/'.
   */
  lemma EscapedHead(closing: bool, spaces: nat, tail: string)
    requires |tail| > 0 && tail[0] != ' ' && tail[0] != '/'
    ensures var s := "&lt;" + (if closing then "/" else "") + Spaces(spaces) + tail;
      var p0 := if closing then 5 else 4;
      && StartsWith(s, "&lt;") && (4 < |s| && s[4] == '/') == closing
      && RunEnd(s, p0, c => c == ' ') == p0 + spaces && s[p0 + spaces..] == tail
  {
    var s := "&lt;" + (if closing then "/" else "") + Spaces(spaces) + tail;
    var p0 := if closing then 5 else 4;
    var p := p0 + spaces;
    assert s[..4] == "&lt;";
    assert s[p..] == tail;
    forall x | p0 <= x < p
      ensures s[x] == ' '
    {
      assert s[x] == Spaces(spaces)[x - p0];
    }
    assert s[p] == tail[0];
    RunEndAt(s, p0, spaces, c => c == ' ');
  }

  /** The pieces of a text that reads `t`, `attr`, `&gt;` and `rest` from `p` on. */
  lemma TagAfter(s: string, p: nat, t: string, attr: string, rest: string)
    requires p <= |s| && s[p..] == t + attr + "&gt;" + rest
    ensures p + |t| + |attr| + 4 <= |s|
    ensures s[p..p + |t|] == t && s[p + |t|..p + |t| + |attr|] == attr
    ensures s[p + |t| + |attr|..p + |t| + |attr| + 4] == "&gt;"
    ensures s[p + |t| + |attr| + 4..] == rest
  {
    var tail := s[p..];
    assert s[p..p + |t|] == tail[..|t|];
    assert s[p + |t|..p + |t| + |attr|] == tail[|t|..|t| + |attr|];
    assert s[p + |t| + |attr|..p + |t| + |attr| + 4] == tail[|t| + |attr|..|t| + |attr| + 4];
    assert s[p + |t| + |attr| + 4..] == tail[|t| + |attr| + 4..];
  }

  /**
    An escaped allowed tag followed by any text becomes the bare tag, with
    its attributes when they are kept, and the rest of the text is
    unescaped independently. The spaces before the tag are dropped.
   */
  lemma UnescapeTag(closing: bool, spaces: nat, t: string, attr: string, rest: string, tags: seq<string>, keepAttributes: bool)
    requires ReachesTag(tags, t) && |t| > 0 && IsLetter(t[0])
    requires AttrText(attr)
    ensures UnescapeAll(EscapedForm(closing, spaces, t, attr) + rest, tags, keepAttributes)
         == "<" + (if closing then "/" else "") + t + (if keepAttributes then attr else "") + ">" + UnescapeAll(rest, tags, keepAttributes)
  {
    var tail := t + attr + "&gt;" + rest;
    var s := "&lt;" + (if closing then "/" else "") + Spaces(spaces) + tail;
    assert EscapedForm(closing, spaces, t, attr) + rest == s;
    assert tail[0] == t[0];
    EscapedHead(closing, spaces, tail);
    var p := (if closing then 5 else 4) + spaces;
    TagAfter(s, p, t, attr, rest);
    MatchFromPicks(s, p, closing, tags, t, attr);
    var m := EscapedTag(closing, t, attr, p + |t| + |attr| + 4);
    assert MatchEscapedTag(s, tags) == Some(m);
  }

  /** Text with no '&' passes through the escaped-tag expression unchanged. */
  lemma {:induction false} UnescapeKeepsPlain(p: string, s: string, tags: seq<string>, keepAttributes: bool)
    requires '&' !in p
    ensures UnescapeAll(p + s, tags, keepAttributes) == p + UnescapeAll(s, tags, keepAttributes)
    decreases |p|
  {
    if |p| > 0 {
      UnescapePlainStep(p, s, tags, keepAttributes);
      UnescapeKeepsPlain(p[1..], s, tags, keepAttributes);
      ConsAppend(p, UnescapeAll(s, tags, keepAttributes));
    } else {
      assert p + s == s;
    }
  }

  /** A first character other than '&' is kept, and the rest is rewritten on its own. */
  lemma UnescapePlainStep(p: string, s: string, tags: seq<string>, keepAttributes: bool)
    requires |p| > 0 && p[0] != '&'
    ensures UnescapeAll(p + s, tags, keepAttributes) == [p[0]] + UnescapeAll(p[1..] + s, tags, keepAttributes)
  {
    var x := p + s;
    assert x[0] == p[0];
    assert !StartsWith(x, "&lt;");
    UnescapeSkips(x, tags, keepAttributes);
    assert x[1..] == p[1..] + s;
  }

  /** A text that does not start with `&lt;` keeps its first character and goes on with the rest. */
  lemma UnescapeSkips(x: string, tags: seq<string>, keepAttributes: bool)
    requires |x| > 0 && !StartsWith(x, "&lt;")
    ensures UnescapeAll(x, tags, keepAttributes) == [x[0]] + UnescapeAll(x[1..], tags, keepAttributes)
  {
  }

  /** Splitting off the first character of the left operand of a concatenation. */
  lemma ConsAppend(p: string, r: string)
    requires |p| > 0
    ensures [p[0]] + (p[1..] + r) == p + r
  {
    assert p == [p[0]] + p[1..];
  }

  /** The escaped-tag expression leaves a text with no `&lt;` as it is. */
  lemma {:induction false} UnescapeAllNoEscape(s: string, tags: seq<string>, keepAttributes: bool)
    requires !Contains(s, "&lt;")
    ensures UnescapeAll(s, tags, keepAttributes) == s
    decreases |s|
  {
    if |s| > 0 {
      assert StartsWith(s, "&lt;") ==> OccursAt(s, "&lt;", 0);
      ContainsTail(s, "&lt;");
      UnescapeAllNoEscape(s[1..], tags, keepAttributes);
    }
  }

  /** The `&lt;` test in markup_utils_unescape_formatting is a shortcut only: it never changes the result. */
  lemma UnescapeShortcutHarmless(s: string, tags: seq<string>, keepAttributes: bool)
    ensures UnescapeFormatting(s, tags, keepAttributes) == UnescapeAll(s, tags, keepAttributes)
  {
    if !Contains(s, "&lt;") {
      UnescapeAllNoEscape(s, tags, keepAttributes);
    }
  }

  /**
    markup_utils_unescape_formatting with the format's tag list turns an
    escaped allowed tag into the bare tag, keeping its attributes only for
    WebVTT.
   */
  lemma UnescapeAllowedTag(closing: bool, spaces: nat, t: string, attr: string, rest: string, isWebvtt: bool)
    requires t in AllowedTags(isWebvtt)
    requires AttrText(attr)
    ensures UnescapeFormatting(EscapedForm(closing, spaces, t, attr) + rest, AllowedTags(isWebvtt), isWebvtt)
         == "<" + (if closing then "/" else "") + t + (if isWebvtt then attr else "") + ">" + UnescapeAll(rest, AllowedTags(isWebvtt), isWebvtt)
  {
    AllowedTagsReached(isWebvtt, t);
    UnescapeTag(closing, spaces, t, attr, rest, AllowedTags(isWebvtt), isWebvtt);
    UnescapeShortcutHarmless(EscapedForm(closing, spaces, t, attr) + rest, AllowedTags(isWebvtt), isWebvtt);
  }

  // ---------------------------------------------------------------------
  // Removing unhandled tags
  // ---------------------------------------------------------------------

  /** `a` is `b` with some characters left out. */
  predicate Subsequence(a: string, b: string)
    decreases |b|
  {
    if |a| == 0 then true
    else if |b| == 0 then false
    else (a[0] == b[0] && Subsequence(a[1..], b[1..])) || Subsequence(a, b[1..])
  }

  /** Dropping a prefix of the longer text keeps the subsequence relation. */
  lemma {:induction false} SubsequenceDrop(a: string, b: string, k: nat)
    requires k <= |b| && Subsequence(a, b[k..])
    ensures Subsequence(a, b)
    decreases k
  {
    if k > 0 {
      assert b[1..][k - 1..] == b[k..];
      SubsequenceDrop(a, b[1..], k - 1);
    }
  }

  /** Removal only ever cuts characters out; it adds or reorders nothing. */
  lemma {:induction false} RemoveIsSubsequence(s: string)
    ensures Subsequence(RemoveUnhandledTags(s), s)
    decreases |s|
  {
    if |s| > 0 {
      match UnhandledTagEnd(s)
      case Some(e) =>
        RemoveIsSubsequence(s[e..]);
        SubsequenceDrop(RemoveUnhandledTags(s), s, e);
      case None =>
        RemoveIsSubsequence(s[1..]);
    }
  }

  /** A text with no `&lt;` has no unhandled tag to remove. */
  lemma {:induction false} RemoveNoEscape(s: string)
    requires !Contains(s, "&lt;")
    ensures RemoveUnhandledTags(s) == s
    decreases |s|
  {
    if |s| > 0 {
      assert StartsWith(s, "&lt;") ==> OccursAt(s, "&lt;", 0);
      ContainsTail(s, "&lt;");
      RemoveNoEscape(s[1..]);
    }
  }

  /** Text with no '&' passes through the removal pass unchanged, whatever follows it. */
  lemma {:induction false} RemoveKeepsPlain(p: string, s: string)
    requires '&' !in p
    ensures RemoveUnhandledTags(p + s) == p + RemoveUnhandledTags(s)
    decreases |p|
  {
    if |p| > 0 {
      RemovePlainStep(p, s);
      RemoveKeepsPlain(p[1..], s);
      ConsAppend(p, RemoveUnhandledTags(s));
    } else {
      assert p + s == s;
    }
  }

  /** A first character other than '&' starts no unhandled tag: it is kept, and the rest is cleaned on its own. */
  lemma RemovePlainStep(p: string, s: string)
    requires |p| > 0 && p[0] != '&'
    ensures RemoveUnhandledTags(p + s) == [p[0]] + RemoveUnhandledTags(p[1..] + s)
  {
    var x := p + s;
    assert x[0] == p[0];
    assert !StartsWith(x, "&lt;");
    assert x[1..] == p[1..] + s;
  }

  /** After `&lt;` and one optional '/', the name starts with a letter. */
  predicate NameStartsWithLetter(s: string) {
    var t := if 4 < |s| && s[4] == '/' then 5 else 4;
    t < |s| && IsLetter(s[t])
  }

  /**
    The first character is kept and the walk moves on unless an unhandled
    tag starts there: the text does not start with `&lt;`, no `&gt;`
    follows it, or the name does not start with a letter. So `&lt;1&gt;`
    and a `&lt;` with no `&gt;` after it survive.
   */
  lemma RemoveKeepsFirst(s: string)
    requires |s| > 0
    requires !StartsWith(s, "&lt;") || !Contains(s[4..], "&gt;") || !NameStartsWithLetter(s)
    ensures RemoveUnhandledTags(s) == [s[0]] + RemoveUnhandledTags(s[1..])
  {
    NoUnhandledTag(s);
  }

  /** The condition of RemoveKeepsFirst is exactly what makes the tag test fail at the start. */
  lemma NoUnhandledTag(s: string)
    requires !StartsWith(s, "&lt;") || !Contains(s[4..], "&gt;") || !NameStartsWithLetter(s)
    ensures UnhandledTagEnd(s).None?
  {
    if StartsWith(s, "&lt;") {
      var f := Find(s, "&gt;", 4);
      if f.Some? {
        var g := f.value;
        assert s[4..][g - 4..g - 4 + 4] == s[g..g + 4];
        assert OccursAt(s[4..], "&gt;", g - 4);
      }
    }
  }

  /**
    An escaped tag whose name starts with a letter (after one optional
    '/') is cut out entirely, up to the first `&gt;`, whatever the name.
   */
  lemma RemoveDropsTag(x: string, rest: string)
    requires |x| > 0 && (IsLetter(x[0]) || (|x| > 1 && x[0] == '/' && IsLetter(x[1])))
    requires !Contains(x, "&gt;")
    ensures RemoveUnhandledTags("&lt;" + x + "&gt;" + rest) == RemoveUnhandledTags(rest)
  {
    var s := "&lt;" + x + "&gt;" + rest;
    var g := 4 + |x|;
    assert StartsWith(s, "&lt;") by { assert s[..4] == "&lt;"; }
    assert OccursAt(s, "&gt;", g) by { assert s[g..g + 4] == "&gt;"; }
    forall k | 4 <= k < g
      ensures !OccursAt(s, "&gt;", k)
    {
      if k + 4 <= g {
        assert s[k..k + 4] == x[k - 4..k];
        assert !OccursAt(x, "&gt;", k - 4);
      } else {
        assert s[k..k + 4][g - k] == s[g] == '&';
      }
    }
    assert Find(s, "&gt;", 4) == Some(g);
    assert s[4] == x[0];
    if x[0] == '/' { assert s[5] == x[1]; }
    assert UnhandledTagEnd(s) == Some(g + 4);
    assert s[g + 4..] == rest;
  }

  // ---------------------------------------------------------------------
  // Stripping trailing newlines
  // ---------------------------------------------------------------------

  /**
    `r` is what stripping `s` should give: a prefix that leaves only
    newlines behind, non-empty when `s` is, and ending in a newline only
    when it is a single character.
   */
  predicate IsStripped(s: string, r: string) {
    |r| <= |s| && r == s[..|r|]
    && (forall k :: |r| <= k < |s| ==> s[k] == '\n')
    && (|s| > 0 ==> |r| >= 1)
    && (|r| > 1 ==> r[|r| - 1] != '\n')
  }

  /** Of two descriptions of stripping the same text, neither is longer. */
  lemma StrippedNotLonger(s: string, a: string, b: string)
    requires IsStripped(s, a) && IsStripped(s, b)
    ensures |a| <= |b|
  {
    if |a| > 1 {
      assert s[|a| - 1] == a[|a| - 1];
    }
  }

  /** The description above determines the stripped text: StripTrailingNewlines gives it and nothing else fits. */
  lemma StripUnique(s: string, r: string)
    ensures IsStripped(s, r) <==> r == StripTrailingNewlines(s)
  {
    var t := StripTrailingNewlines(s);
    if IsStripped(s, r) {
      StrippedNotLonger(s, r, t);
      StrippedNotLonger(s, t, r);
    }
  }

  /** Stripping twice is stripping once. */
  lemma StripIdempotent(s: string)
    ensures StripTrailingNewlines(StripTrailingNewlines(s)) == StripTrailingNewlines(s)
  {
  }

  // ---------------------------------------------------------------------
  // Fixing up unclosed tags
  // ---------------------------------------------------------------------

  /**
    The test that pops a closing tag compares the text from the character
    before the first '>' on: for a tag of two or more letters the second
    comparison meets that '>', so such a tag is never popped.
   */
  lemma LongTagNeverPops(s: string, e: nat, t: string)
    requires 0 < e < |s| && s[e] == '>'
    requires |t| >= 2 && IsLetter(t[1])
    ensures !StrNCaseEqual(s[e - 1..], t, |t|)
  {
    var a := s[e - 1..];
    assert a[1] == '>';
    assert a[1..][0] == '>';
  }

  /** For a one-letter tag the test compares just the character before the '>'. */
  lemma SingleCharPop(s: string, e: nat, t: string)
    requires 0 < e < |s| && |t| == 1
    ensures StrNCaseEqual(s[e - 1..], t, 1) <==> ToLower(s[e - 1]) == ToLower(t[0])
  {
  }

  /** Prefixes survive taking off a shared leading '<'. */
  lemma BracketedPrefix(t: string, u: string)
    ensures StartsWith("<" + t, "<" + u) ==> StartsWith(t, u)
  {
    if StartsWith("<" + t, "<" + u) {
      assert t[..|u|] == ("<" + t)[..|u| + 1][1..];
    }
  }

  /** With no '<' left from `cur` on, the scan ends with the stack it has. */
  lemma ScanNoTag(s: string, tags: seq<string>, cur: nat, stack: seq<string>)
    requires cur <= |s| && '<' !in s[cur..]
    ensures Scan(s, tags, cur, stack) == Some(stack)
  {
  }

  /** The pieces of an opening tag `<t attr>` written at `i`. */
  lemma OpenLayout(s: string, i: nat, t: string, attr: string)
    requires i + |t| + |attr| + 2 <= |s| && s[i..i + |t| + |attr| + 2] == "<" + t + attr + ">"
    ensures s[i] == '<' && StartsWith(s[i..], "<" + t)
    ensures s[i + 1 + |t|..i + 1 + |t| + |attr|] == attr && s[i + 1 + |t| + |attr|] == '>'
  {
    var w := s[i..i + |t| + |attr| + 2];
    assert s[i] == w[0];
    assert s[i..][..|t| + 1] == w[..|t| + 1] == "<" + t;
    assert w[|t| + 1..|t| + 1 + |attr|] == attr;
    forall j | 0 <= j < |attr|
      ensures s[i + 1 + |t| + j] == attr[j]
    {
      assert s[i + 1 + |t| + j] == w[|t| + 1 + j];
    }
    assert s[i + 1 + |t| + |attr|] == w[|t| + 1 + |attr|];
  }

  /**
    The opening-tag matcher skips every tag before `t` and recognises
    `<t attr>` at `i`, for any attribute text the pattern's class accepts.
   */
  lemma {:induction false} MatchOpenPicks(s: string, i: nat, tags: seq<string>, t: string, attr: string)
    requires ReachesTag(tags, t) && AttrText(attr)
    requires i + |t| + |attr| + 2 <= |s| && s[i..i + |t| + |attr| + 2] == "<" + t + attr + ">"
    ensures MatchOpenTag(s, i, tags) == Some((t, |t| + |attr| + 2))
    decreases |tags|
  {
    var x := s[i..];
    OpenLayout(s, i, t, attr);
    if tags[0] == t {
      AttrEndAt(s, i + 1 + |t|, attr);
    } else {
      var u := tags[0];
      PrefixesCompare(x, "<" + t, "<" + u);
      BracketedPrefix(t, u);
      BracketedPrefix(u, t);
      MatchOpenPicks(s, i, tags[1..], t, attr);
    }
  }

  /**
    A recognised `<t attr>` at `cur` is pushed, by the scan as written and
    by the intended one alike, and the scan goes on after it.
   */
  lemma OpeningStep(s: string, tags: seq<string>, cur: nat, stack: seq<string>, t: string, attr: string)
    requires ReachesTag(tags, t) && LowerString(t) == t && AttrText(attr)
    requires cur + |t| + |attr| + 2 <= |s| && s[cur..cur + |t| + |attr| + 2] == "<" + t + attr + ">"
    ensures ScanStep(s, tags, cur, stack) == Next(cur + |t| + |attr| + 2, stack + [t])
    ensures IntendedStep(s, tags, cur, stack) == Resume(s, cur + |t| + |attr| + 2, stack + [t])
  {
    MatchOpenPicks(s, cur, tags, t, attr);
    OpenLayout(s, cur, t, attr);
  }

  /** `OpeningStep` for a bare `<t>`. */
  lemma BareOpeningStep(s: string, tags: seq<string>, cur: nat, stack: seq<string>, t: string)
    requires ReachesTag(tags, t) && LowerString(t) == t
    requires cur + |t| + 2 <= |s| && s[cur..cur + |t| + 2] == "<" + t + ">"
    ensures ScanStep(s, tags, cur, stack) == Next(cur + |t| + 2, stack + [t])
    ensures IntendedStep(s, tags, cur, stack) == Resume(s, cur + |t| + 2, stack + [t])
  {
    assert "<" + t + "" + ">" == "<" + t + ">";
    OpeningStep(s, tags, cur, stack, t, "");
  }

  /** The scan of an allowed tag followed by plain text ends with that tag open. */
  lemma ScanOpenTag(t: string, text: string, isWebvtt: bool)
    requires t in AllowedTags(isWebvtt) && '<' !in text
    ensures Scan("<" + t + ">" + text, AllowedTags(isWebvtt), 0, []) == Some([t])
  {
    var tags := AllowedTags(isWebvtt);
    var s := "<" + t + ">" + text;
    AllowedTagsReached(isWebvtt, t);
    TagsAreLowerCase(isWebvtt, t);
    assert s[0..|t| + 2] == "<" + t + ">";
    BareOpeningStep(s, tags, 0, [], t);
    assert s[|t| + 2..] == text;
    ScanNoTag(s, tags, |t| + 2, [t]);
  }

  /** An allowed tag opened and never closed is closed at the end of the text. */
  lemma FixUpClosesOpenTag(t: string, text: string, isWebvtt: bool)
    requires t in AllowedTags(isWebvtt) && '<' !in text
    ensures FixUpDefined("<" + t + ">" + text, AllowedTags(isWebvtt))
    ensures FixUpMarkup("<" + t + ">" + text, AllowedTags(isWebvtt)) == "<" + t + ">" + text + "</" + t + ">"
  {
    var s := "<" + t + ">" + text;
    ScanOpenTag(t, text, isWebvtt);
    FixUpFromScan(s, AllowedTags(isWebvtt), [t]);
    assert Closers([t]) == "</" + t + ">" by {
      assert Closers([t]) == "</" + t + ">" + Closers([]);
    }
    AppendClosing(s, t);
  }

  /** Appending `</t>` at once or piece by piece gives the same text. */
  lemma AppendClosing(s: string, t: string)
    ensures s + ("</" + t + ">") == s + "</" + t + ">"
  {
  }

  /** The fix-up appends the closers of the stack the scan ends with. */
  lemma FixUpFromScan(s: string, tags: seq<string>, stack: seq<string>)
    requires Scan(s, tags, 0, []) == Some(stack)
    ensures FixUpDefined(s, tags) && FixUpMarkup(s, tags) == s + Closers(stack)
  {
  }

  /** A text that starts with `<t>` has the first character of `t` second. */
  lemma BracketedFirst(x: string, t: string)
    requires |t| > 0 && |x| > 1
    ensures StartsWith(x, "<" + t) ==> x[1] == t[0]
  {
    if StartsWith(x, "<" + t) {
      assert x[..|t| + 1][1] == t[0];
    }
  }

  /** A '<' followed by a character that is not a letter opens no tag. */
  lemma {:induction false} MatchOpenNone(s: string, i: nat, tags: seq<string>)
    requires i + 1 < |s| && !IsLetter(s[i + 1]) && LetterLed(tags)
    ensures MatchOpenTag(s, i, tags).None?
    decreases |tags|
  {
    if |tags| > 0 {
      BracketedFirst(s[i..], tags[0]);
      MatchOpenNone(s, i, tags[1..]);
    }
  }

  /** A text that starts with `u` compares equal with `u` over `u`'s length. */
  lemma {:induction false} StrNCaseSelf(a: string, u: string)
    requires StartsWith(a, u)
    ensures StrNCaseEqual(a, u, |u|)
    decreases |u|
  {
    if |u| > 0 {
      assert a[1..][..|u| - 1] == a[..|u|][1..];
      StrNCaseSelf(a[1..], u[1..]);
    }
  }

  /**
    The closing tag `</name>` at `n`, with no '<' between `cur` and `n`:
    the intended scan pops the top tag when it is `name`, and cuts the
    closing tag out when nothing is open.
   */
  lemma IntendedCloseStep(s: string, tags: seq<string>, cur: nat, stack: seq<string>, n: nat, name: string)
    requires cur <= n && n + |name| + 3 <= |s| && '<' !in s[cur..n] && LetterLed(tags)
    requires s[n..n + |name| + 3] == "</" + name + ">" && '>' !in name
    ensures |stack| > 0 && stack[|stack| - 1] == name ==>
      IntendedStep(s, tags, cur, stack) == Resume(s, n + 1, stack[..|stack| - 1])
    ensures |stack| == 0 ==>
      IntendedStep(s, tags, cur, stack) == Resume(s[..n] + s[n + |name| + 3..], n, stack)
  {
    ClosingTagAt(s, tags, cur, n, name);
    StrNCaseSelf(s[n + 2..], name);
  }

  /** What the scan sees at a closing tag `</name>` at `n`, with no '<' between `cur` and `n`. */
  lemma ClosingTagAt(s: string, tags: seq<string>, cur: nat, n: nat, name: string)
    requires cur <= n && n + |name| + 3 <= |s| && '<' !in s[cur..n] && LetterLed(tags)
    requires s[n..n + |name| + 3] == "</" + name + ">" && '>' !in name
    ensures s[n] == '<' && s[n + 1] == '/'
    ensures FindChar(s, '<', cur) == Some(n) && MatchOpenTag(s, n, tags).None?
    ensures FindChar(s, '>', n) == Some(n + |name| + 2)
    ensures StartsWith(s[n + 2..], name)
  {
    var w := s[n..n + |name| + 3];
    assert s[n] == w[0] == '<' && s[n + 1] == w[1] == '/';
    forall k | cur <= k < n ensures s[k] != '<' {
      assert s[k] == s[cur..n][k - cur];
    }
    MatchOpenNone(s, n, tags);
    var e := n + |name| + 2;
    forall k | n <= k < e ensures s[k] != '>' {
      assert s[k] == w[k - n];
      if k >= n + 2 { assert w[k - n] == name[k - n - 2]; }
    }
    assert s[e] == w[|name| + 2] == '>';
    forall k | 0 <= k < |name| ensures s[n + 2..][k] == name[k] {
      assert s[n + 2 + k] == w[k + 2] == name[k];
    }
    assert s[n + 2..][..|name|] == name;
  }

  /** As written, a closing tag at the start of the text reaches the cut-out branch. */
  lemma UnopenedCloseBreaks(name: string, x: string, isWebvtt: bool)
    requires '>' !in name
    ensures !FixUpDefined("</" + name + ">" + x, AllowedTags(isWebvtt))
  {
    var s := "</" + name + ">" + x;
    TagsStartWithLetter(isWebvtt);
    CloserLayout(name, x, s);
    EmptyStackCloseBreaks(s, AllowedTags(isWebvtt), |name| + 2);
  }

  /** `</name>` at the start of a text: a '<', then a '/', and the first '>' just after the name. */
  lemma CloserLayout(name: string, x: string, s: string)
    requires '>' !in name && s == "</" + name + ">" + x
    ensures |s| > 1 && s[0] == '<' && s[1] == '/' && FindChar(s, '>', 0) == Some(|name| + 2)
  {
    var e := |name| + 2;
    forall k | 0 <= k < e ensures s[k] != '>' {
      if k >= 2 { assert s[k] == name[k - 2]; }
    }
    assert s[e] == '>';
  }

  /** As written, a closing tag at the start of the text, with nothing open, breaks the scan. */
  lemma EmptyStackCloseBreaks(s: string, tags: seq<string>, e: nat)
    requires LetterLed(tags) && |s| > 1 && s[0] == '<' && s[1] == '/' && FindChar(s, '>', 0) == Some(e)
    ensures !FixUpDefined(s, tags)
  {
    MatchOpenNone(s, 0, tags);
    assert FindChar(s, '<', 0) == Some(0);
    assert ScanStep(s, tags, 0, []) == Broken;
  }

  /** The intended fix-up cuts out a closing tag that closes nothing, as the source comment says. */
  lemma IntendedDropsUnopened(name: string, x: string, isWebvtt: bool)
    requires '>' !in name && '<' !in x
    ensures FixUpIntended("</" + name + ">" + x, AllowedTags(isWebvtt)) == x
  {
    var s := "</" + name + ">" + x;
    var tags := AllowedTags(isWebvtt);
    TagsStartWithLetter(isWebvtt);
    DropLayout(name, x, s);
    IntendedCloseStep(s, tags, 0, [], 0, name);
    IntendedDropFinish(s, tags, x);
  }

  /** `</name>` then `x`: the closing tag spans the first |name| + 3 characters, and cutting it out leaves `x`. */
  lemma DropLayout(name: string, x: string, s: string)
    requires s == "</" + name + ">" + x
    ensures |name| + 3 <= |s| && s[0..|name| + 3] == "</" + name + ">" && '<' !in s[0..0]
    ensures s[..0] + s[|name| + 3..] == x
  {
    assert s[0..0] == [];
  }

  /** The intended step cut the text down to `x`, which holds no '<': the intended fix-up returns `x`. */
  lemma IntendedDropFinish(s: string, tags: seq<string>, x: string)
    requires IntendedStep(s, tags, 0, []) == Resume(x, 0, []) && '<' !in x
    ensures FixUpIntended(s, tags) == x
  {
    IntendedUnfold(s, tags, 0, [], x, 0, []);
    assert x[0..] == x;
    assert Closers([]) == [];
  }

  /**
    A closing tag `</…` at `n` whose first '>' from `cur` on is at `e`, with
    no '<' between `cur` and `n`: as written, the scan pops the top tag
    when the text from `e - 1` compares equal with it, and is Broken
    otherwise.
   */
  lemma WrittenCloseStep(s: string, tags: seq<string>, cur: nat, stack: seq<string>, n: nat, e: nat)
    requires cur <= n && n + 1 < |s| && s[n] == '<' && s[n + 1] == '/' && '<' !in s[cur..n] && LetterLed(tags)
    requires cur < e < |s| && s[e] == '>' && '>' !in s[cur..e]
    ensures |stack| > 0 && StrNCaseEqual(s[e - 1..], stack[|stack| - 1], |stack[|stack| - 1]|) ==>
      ScanStep(s, tags, cur, stack) == Next(n + 1, stack[..|stack| - 1])
    ensures !(|stack| > 0 && StrNCaseEqual(s[e - 1..], stack[|stack| - 1], |stack[|stack| - 1]|)) ==>
      ScanStep(s, tags, cur, stack) == Broken
  {
    forall k | cur <= k < n ensures s[k] != '<' {
      assert s[k] == s[cur..n][k - cur];
    }
    forall k | cur <= k < e ensures s[k] != '>' {
      assert s[k] == s[cur..e][k - cur];
    }
    assert FindChar(s, '<', cur) == Some(n);
    assert FindChar(s, '>', cur) == Some(e);
    MatchOpenNone(s, n, tags);
  }

  /** The layout of a pair of one-letter tags nested around `x`. */
  lemma NestedLayout(t: string, u: string, x: string)
    requires |t| == 1 && |u| == 1
    ensures var s := "<" + t + ">" + "<" + u + ">" + x + "</" + u + ">" + "</" + t + ">";
      var n := 6 + |x|;
      && |s| == n + 8 && s[0..3] == "<" + t + ">" && s[3..6] == "<" + u + ">" && s[6..n] == x
      && s[n] == '<' && s[n + 1] == '/' && s[n + 2] == u[0] && s[n + 3] == '>'
      && s[n + 4] == '<' && s[n + 5] == '/' && s[n + 6] == t[0] && s[n + 7] == '>'
  {
    var s := "<" + t + ">" + "<" + u + ">" + x + "</" + u + ">" + "</" + t + ">";
    var n := 6 + |x|;
    assert s[n..] == "</" + u + ">" + "</" + t + ">";
  }

  /** The closing half of NestedCloseBreaks: from just past the two opening tags, the scan is Broken. */
  lemma NestedClosersBreak(s: string, tags: seq<string>, t: string, u: string, n: nat)
    requires LetterLed(tags) && |t| == 1 && |u| == 1 && IsLower(t[0]) && IsLower(u[0]) && t[0] != u[0]
    requires 6 <= n && n + 8 <= |s| && '<' !in s[6..n] && '>' !in s[6..n]
    requires s[n] == '<' && s[n + 1] == '/' && s[n + 2] == u[0] && s[n + 3] == '>'
    requires s[n + 4] == '<' && s[n + 5] == '/'
    ensures Scan(s, tags, 6, [t, u]) == None
  {
    NestedInnerPop(s, tags, t, u, n);
    NestedOuterBreak(s, tags, t, u, n);
    ScanBreaksAfter(s, tags, 6, [t, u], n + 1, [t]);
  }

  /** A step on, then a Broken step: the scan is Broken. */
  lemma ScanBreaksAfter(s: string, tags: seq<string>, cur: nat, stack: seq<string>, c: nat, st: seq<string>)
    requires cur <= |s| && ScanStep(s, tags, cur, stack) == Next(c, st)
    requires ScanStep(s, tags, c, st) == Broken
    ensures Scan(s, tags, cur, stack) == None
  {
    ScanUnfold(s, tags, cur, stack, c, st);
  }

  /** The inner closing tag of NestedCloseBreaks pops the inner tag. */
  lemma NestedInnerPop(s: string, tags: seq<string>, t: string, u: string, n: nat)
    requires LetterLed(tags) && |t| == 1 && |u| == 1 && IsLower(u[0])
    requires 6 <= n && n + 8 <= |s| && '<' !in s[6..n] && '>' !in s[6..n]
    requires s[n] == '<' && s[n + 1] == '/' && s[n + 2] == u[0] && s[n + 3] == '>'
    ensures ScanStep(s, tags, 6, [t, u]) == Next(n + 1, [t])
  {
    assert '>' !in s[6..n + 3] by {
      forall k | 6 <= k < n + 3 ensures s[k] != '>' {
        if k < n { assert s[k] == s[6..n][k - 6]; }
      }
    }
    SingleCharPop(s, n + 3, u);
    WrittenCloseStep(s, tags, 6, [t, u], n, n + 3);
  }

  /**
    The outer closing tag of NestedCloseBreaks: the '>' found from just
    past the inner `<` is the inner closer's, so the inner letter is
    compared with the outer tag, and the step is Broken.
   */
  lemma NestedOuterBreak(s: string, tags: seq<string>, t: string, u: string, n: nat)
    requires LetterLed(tags) && |t| == 1 && |u| == 1 && IsLower(t[0]) && IsLower(u[0]) && t[0] != u[0]
    requires n + 8 <= |s|
    requires s[n + 1] == '/' && s[n + 2] == u[0] && s[n + 3] == '>'
    requires s[n + 4] == '<' && s[n + 5] == '/'
    ensures ScanStep(s, tags, n + 1, [t]) == Broken
  {
    assert s[n + 1..n + 4] == ['/', u[0], '>'];
    assert s[n + 1..n + 3] == ['/', u[0]];
    SingleCharPop(s, n + 3, t);
    WrittenCloseStep(s, tags, n + 1, [t], n + 4, n + 3);
  }

  /**
    As written, the outer closing tag of a nested pair reaches the cut-out
    branch: after the inner tag is popped, the '>' is searched from just
    past the inner `<`, finds the inner closer's '>', and compares the
    inner tag's letter with the outer tag.
   */
  lemma NestedCloseBreaks(t: string, u: string, x: string, isWebvtt: bool)
    requires t in AllowedTags(isWebvtt) && u in AllowedTags(isWebvtt)
    requires |t| == 1 && |u| == 1 && t != u
    requires '<' !in x && '>' !in x
    ensures !FixUpDefined("<" + t + ">" + "<" + u + ">" + x + "</" + u + ">" + "</" + t + ">", AllowedTags(isWebvtt))
  {
    var tags := AllowedTags(isWebvtt);
    var s := "<" + t + ">" + "<" + u + ">" + x + "</" + u + ">" + "</" + t + ">";
    NestedLayout(t, u, x);
    AllowedTagsReached(isWebvtt, t);
    AllowedTagsReached(isWebvtt, u);
    TagsAreLowerCase(isWebvtt, t);
    TagsAreLowerCase(isWebvtt, u);
    TagsStartWithLetter(isWebvtt);
    assert t[0] != u[0] by { assert t == [t[0]] && u == [u[0]]; }
    NestedOpeners(s, tags, t, u, |t| + 2, |t| + |u| + 4);
    NestedClosersBreak(s, tags, t, u, 6 + |x|);
  }

  /** The scan as written goes on from where its first step leaves it. */
  lemma ScanUnfold(s: string, tags: seq<string>, cur: nat, stack: seq<string>, c: nat, st: seq<string>)
    requires cur <= |s| && ScanStep(s, tags, cur, stack) == Next(c, st)
    ensures Scan(s, tags, cur, stack) == Scan(s, tags, c, st)
  {
  }

  /** The intended scan goes on from where its first step leaves it. */
  lemma IntendedUnfold(s: string, tags: seq<string>, cur: nat, stack: seq<string>, s': string, c: nat, st: seq<string>)
    requires cur <= |s| && IntendedStep(s, tags, cur, stack) == Resume(s', c, st)
    ensures ScanIntended(s, tags, cur, stack) == ScanIntended(s', tags, c, st)
  {
  }

  /** Two opening steps from the start, as written and as intended, chained. */
  lemma ChainTwo(s: string, tags: seq<string>, a: nat, b: nat, t: string, u: string)
    requires a <= b <= |s|
    requires ScanStep(s, tags, 0, []) == Next(a, [t])
    requires ScanStep(s, tags, a, [t]) == Next(b, [t, u])
    requires IntendedStep(s, tags, 0, []) == Resume(s, a, [t])
    requires IntendedStep(s, tags, a, [t]) == Resume(s, b, [t, u])
    ensures Scan(s, tags, 0, []) == Scan(s, tags, b, [t, u])
    ensures ScanIntended(s, tags, 0, []) == ScanIntended(s, tags, b, [t, u])
  {
    ScanUnfold(s, tags, 0, [], a, [t]);
    ScanUnfold(s, tags, a, [t], b, [t, u]);
    IntendedUnfold(s, tags, 0, [], s, a, [t]);
    IntendedUnfold(s, tags, a, [t], s, b, [t, u]);
  }

  /** Two recognised opening tags at the start of the text are both pushed, as written and as intended. */
  lemma NestedOpeners(s: string, tags: seq<string>, t: string, u: string, a: nat, b: nat)
    requires ReachesTag(tags, t) && ReachesTag(tags, u) && LowerString(t) == t && LowerString(u) == u
    requires a == |t| + 2 && b == a + |u| + 2 && b <= |s| && s[0..a] == "<" + t + ">" && s[a..b] == "<" + u + ">"
    ensures Scan(s, tags, 0, []) == Scan(s, tags, b, [t, u])
    ensures ScanIntended(s, tags, 0, []) == ScanIntended(s, tags, b, [t, u])
  {
    FirstOpener(s, tags, t, u, a, b);
    SecondOpener(s, tags, t, u, a, b);
    ChainTwo(s, tags, a, b, t, u);
  }

  /** The first of two opening tags at the start of the text is pushed. */
  lemma FirstOpener(s: string, tags: seq<string>, t: string, u: string, a: nat, b: nat)
    requires ReachesTag(tags, t) && ReachesTag(tags, u) && LowerString(t) == t && LowerString(u) == u
    requires a == |t| + 2 && b == a + |u| + 2 && b <= |s| && s[0..a] == "<" + t + ">" && s[a..b] == "<" + u + ">"
    ensures ScanStep(s, tags, 0, []) == Next(a, [t]) && IntendedStep(s, tags, 0, []) == Resume(s, a, [t])
  {
    BareOpeningStep(s, tags, 0, [], t);
    assert [] + [t] == [t];
  }

  /** The second of two opening tags at the start of the text is pushed on the first. */
  lemma SecondOpener(s: string, tags: seq<string>, t: string, u: string, a: nat, b: nat)
    requires ReachesTag(tags, t) && ReachesTag(tags, u) && LowerString(t) == t && LowerString(u) == u
    requires a == |t| + 2 && b == a + |u| + 2 && b <= |s| && s[0..a] == "<" + t + ">" && s[a..b] == "<" + u + ">"
    ensures ScanStep(s, tags, a, [t]) == Next(b, [t, u]) && IntendedStep(s, tags, a, [t]) == Resume(s, b, [t, u])
  {
    BareOpeningStep(s, tags, a, [t], u);
    assert [t] + [u] == [t, u];
  }

  /**
    As written, the closing tag of any tag of two or more letters, such as
    WebVTT's `ruby` and `rt`, reaches the cut-out branch.
   */
  lemma LongCloseBreaks(t: string, x: string, isWebvtt: bool)
    requires t in AllowedTags(isWebvtt) && |t| >= 2
    requires '<' !in x && '>' !in x
    ensures !FixUpDefined("<" + t + ">" + x + "</" + t + ">", AllowedTags(isWebvtt))
  {
    var tags := AllowedTags(isWebvtt);
    var s := "<" + t + ">" + x + "</" + t + ">";
    var a := |t| + 2;
    var n := a + |x|;
    assert ReachesTag(tags, t) && LowerString(t) == t && LetterLed(tags)
      && forall j :: 0 <= j < |t| ==> IsLower(t[j]) by {
      AllowedTagsReached(isWebvtt, t);
      TagsAreLowerCase(isWebvtt, t);
      TagsStartWithLetter(isWebvtt);
    }
    LongLayout(t, x, s, a, n);
    LongScanBreaks(s, tags, t, a, n);
  }

  /** The layout of a tag around `x`, at the offsets the scan meets. */
  lemma LongLayout(t: string, x: string, s: string, a: nat, n: nat)
    requires s == "<" + t + ">" + x + "</" + t + ">"
    requires a == |t| + 2 && n == a + |x|
    ensures a <= n <= |s| && s[0..a] == "<" + t + ">" && s[a..n] == x && s[n..] == "</" + t + ">"
  {
  }

  /** The scan of LongCloseBreaks from the start: `<t>` is pushed, then its closer is Broken. */
  lemma LongScanBreaks(s: string, tags: seq<string>, t: string, a: nat, n: nat)
    requires ReachesTag(tags, t) && LowerString(t) == t && LetterLed(tags)
    requires |t| >= 2 && forall j :: 0 <= j < |t| ==> IsLower(t[j])
    requires a == |t| + 2 && a <= n <= |s| && s[0..a] == "<" + t + ">"
    requires '<' !in s[a..n] && '>' !in s[a..n] && s[n..] == "</" + t + ">"
    ensures Scan(s, tags, 0, []) == None
  {
    BareOpeningStep(s, tags, 0, [], t);
    assert [] + [t] == [t];
    ScanUnfold(s, tags, 0, [], a, [t]);
    LongCloserBreaks(s, tags, t, a, n);
  }

  /** The closing half of LongCloseBreaks: the closer of a long open tag is Broken. */
  lemma LongCloserBreaks(s: string, tags: seq<string>, t: string, a: nat, n: nat)
    requires LetterLed(tags) && |t| >= 2 && forall j :: 0 <= j < |t| ==> IsLower(t[j])
    requires a <= n <= |s| && '<' !in s[a..n] && '>' !in s[a..n] && s[n..] == "</" + t + ">"
    ensures Scan(s, tags, a, [t]) == None
  {
    var e := n + 2 + |t|;
    assert s[n] == '<' && s[n + 1] == '/' && s[e] == '>';
    assert '>' !in s[a..e] by {
      forall k | a <= k < e ensures s[k] != '>' {
        if k < n { assert s[k] == s[a..n][k - a]; }
        else if k >= n + 2 { assert s[k] == s[n..][k - n] == t[k - n - 2]; }
      }
    }
    LongTagNeverPops(s, e, t);
    WrittenCloseStep(s, tags, a, [t], n, e);
  }

  /** The layout of two tags nested around `x`, at the offsets the scan meets. */
  lemma NestedLayoutAny(t: string, u: string, x: string, s: string, a: nat, b: nat, n: nat)
    requires s == "<" + t + ">" + "<" + u + ">" + x + "</" + u + ">" + "</" + t + ">"
    requires a == |t| + 2 && b == a + |u| + 2 && n == b + |x|
    ensures b <= n && n + |u| + 3 + |t| + 3 == |s|
    ensures s[0..a] == "<" + t + ">" && s[a..b] == "<" + u + ">" && s[b..n] == x
    ensures s[n..n + |u| + 3] == "</" + u + ">" && s[n + 1..n + |u| + 3] == "/" + u + ">"
    ensures s[n + |u| + 3..n + |u| + 3 + |t| + 3] == "</" + t + ">" && s[n + |u| + 3 + 1..] == "/" + t + ">"
  {
  }

  /**
    The intended fix-up leaves properly nested allowed tags as they are,
    whatever their length: both closing tags pop, and nothing is left open.
   */
  lemma IntendedNestedUnchanged(t: string, u: string, x: string, isWebvtt: bool)
    requires t in AllowedTags(isWebvtt) && u in AllowedTags(isWebvtt) && '<' !in x
    ensures var s := "<" + t + ">" + "<" + u + ">" + x + "</" + u + ">" + "</" + t + ">";
      FixUpIntended(s, AllowedTags(isWebvtt)) == s
  {
    var tags := AllowedTags(isWebvtt);
    var s := "<" + t + ">" + "<" + u + ">" + x + "</" + u + ">" + "</" + t + ">";
    var a := |t| + 2;
    var b := a + |u| + 2;
    var n := b + |x|;
    assert ReachesTag(tags, t) && ReachesTag(tags, u) && LowerString(t) == t && LowerString(u) == u
      && LetterLed(tags) && (forall j :: 0 <= j < |t| ==> IsLower(t[j])) && (forall j :: 0 <= j < |u| ==> IsLower(u[j])) by {
      AllowedTagsReached(isWebvtt, t);
      AllowedTagsReached(isWebvtt, u);
      TagsAreLowerCase(isWebvtt, t);
      TagsAreLowerCase(isWebvtt, u);
      TagsStartWithLetter(isWebvtt);
    }
    NestedLayoutAny(t, u, x, s, a, b, n);
    assert '<' !in s[b..n];
    IntendedNestedScan(s, tags, t, u, a, b, n);
  }

  /** The scan half of IntendedNestedUnchanged, at the offsets of the layout. */
  lemma IntendedNestedScan(s: string, tags: seq<string>, t: string, u: string, a: nat, b: nat, n: nat)
    requires ReachesTag(tags, t) && ReachesTag(tags, u) && LowerString(t) == t && LowerString(u) == u
    requires LetterLed(tags) && (forall j :: 0 <= j < |t| ==> IsLower(t[j])) && (forall j :: 0 <= j < |u| ==> IsLower(u[j]))
    requires a == |t| + 2 && b == a + |u| + 2 && b <= n && n + |u| + 3 + |t| + 3 == |s|
    requires s[0..a] == "<" + t + ">" && s[a..b] == "<" + u + ">" && '<' !in s[b..n]
    requires s[n..n + |u| + 3] == "</" + u + ">" && s[n + 1..n + |u| + 3] == "/" + u + ">"
    requires s[n + |u| + 3..n + |u| + 3 + |t| + 3] == "</" + t + ">" && s[n + |u| + 3 + 1..] == "/" + t + ">"
    ensures FixUpIntended(s, tags) == s
  {
    NestedOpeners(s, tags, t, u, a, b);
    IntendedClosersPop(s, tags, t, u, b, n);
    IntendedKeepsText(s, tags);
  }

  /** When the intended scan keeps the text and leaves nothing open, the intended fix-up returns the text. */
  lemma IntendedKeepsText(s: string, tags: seq<string>)
    requires ScanIntended(s, tags, 0, []) == (s, [])
    ensures FixUpIntended(s, tags) == s
  {
    assert Closers([]) == [];
  }

  /** An intended closing step that pops `name` hands the rest of the scan on, after the '<'. */
  lemma IntendedPop(s: string, tags: seq<string>, cur: nat, stack: seq<string>, n: nat, name: string)
    requires cur <= n && n + |name| + 3 <= |s| && '<' !in s[cur..n] && LetterLed(tags)
    requires s[n..n + |name| + 3] == "</" + name + ">" && '>' !in name
    requires |stack| > 0 && stack[|stack| - 1] == name
    ensures ScanIntended(s, tags, cur, stack) == ScanIntended(s, tags, n + 1, stack[..|stack| - 1])
  {
    IntendedCloseStep(s, tags, cur, stack, n, name);
  }

  /** The closing half of IntendedNestedUnchanged: both closing tags pop and the text is kept. */
  lemma IntendedClosersPop(s: string, tags: seq<string>, t: string, u: string, b: nat, n: nat)
    requires LetterLed(tags) && (forall j :: 0 <= j < |t| ==> IsLower(t[j])) && (forall j :: 0 <= j < |u| ==> IsLower(u[j]))
    requires b <= n && n + |u| + 3 + |t| + 3 == |s| && '<' !in s[b..n]
    requires s[n..n + |u| + 3] == "</" + u + ">" && s[n + 1..n + |u| + 3] == "/" + u + ">"
    requires s[n + |u| + 3..n + |u| + 3 + |t| + 3] == "</" + t + ">" && s[n + |u| + 3 + 1..] == "/" + t + ">"
    ensures ScanIntended(s, tags, b, [t, u]) == (s, [])
  {
    IntendedInnerPop(s, tags, t, u, b, n);
    IntendedOuterPop(s, tags, t, u, b, n);
  }

  /** The inner closing tag pops the inner opening tag. */
  lemma IntendedInnerPop(s: string, tags: seq<string>, t: string, u: string, b: nat, n: nat)
    requires LetterLed(tags) && (forall j :: 0 <= j < |t| ==> IsLower(t[j])) && (forall j :: 0 <= j < |u| ==> IsLower(u[j]))
    requires b <= n && n + |u| + 3 + |t| + 3 == |s| && '<' !in s[b..n]
    requires s[n..n + |u| + 3] == "</" + u + ">" && s[n + 1..n + |u| + 3] == "/" + u + ">"
    requires s[n + |u| + 3..n + |u| + 3 + |t| + 3] == "</" + t + ">" && s[n + |u| + 3 + 1..] == "/" + t + ">"
    ensures ScanIntended(s, tags, b, [t, u]) == ScanIntended(s, tags, n + 1, [t])
  {
    assert '>' !in u;
    IntendedPop(s, tags, b, [t, u], n, u);
    assert [t, u][..1] == [t];
  }

  /** The outer closing tag, after the inner one, pops the outer opening tag. */
  lemma IntendedOuterPop(s: string, tags: seq<string>, t: string, u: string, b: nat, n: nat)
    requires LetterLed(tags) && (forall j :: 0 <= j < |t| ==> IsLower(t[j])) && (forall j :: 0 <= j < |u| ==> IsLower(u[j]))
    requires b <= n && n + |u| + 3 + |t| + 3 == |s| && '<' !in s[b..n]
    requires s[n..n + |u| + 3] == "</" + u + ">" && s[n + 1..n + |u| + 3] == "/" + u + ">"
    requires s[n + |u| + 3..n + |u| + 3 + |t| + 3] == "</" + t + ">" && s[n + |u| + 3 + 1..] == "/" + t + ">"
    ensures ScanIntended(s, tags, n + 1, [t]) == (s, [])
  {
    assert '<' !in u;
    assert '<' !in s[n + 1..n + |u| + 3];
    IntendedLastPop(s, tags, t, n + 1, n + |u| + 3);
  }

  /** The last closing tag of the text pops the one open tag, and the intended scan ends there. */
  lemma IntendedLastPop(s: string, tags: seq<string>, t: string, c: nat, m: nat)
    requires LetterLed(tags) && (forall j :: 0 <= j < |t| ==> IsLower(t[j]))
    requires c <= m && m + |t| + 3 == |s| && '<' !in s[c..m]
    requires s[m..m + |t| + 3] == "</" + t + ">" && s[m + 1..] == "/" + t + ">"
    ensures ScanIntended(s, tags, c, [t]) == (s, [])
  {
    assert '>' !in t && '<' !in t;
    assert '<' !in s[m + 1..];
    IntendedPop(s, tags, c, [t], m, t);
    assert [t][..0] == [];
  }

  /** A text with no '<' opens no tag, so the fix-up leaves it as it is. */
  lemma FixUpNoTag(s: string, tags: seq<string>)
    requires '<' !in s
    ensures FixUpDefined(s, tags) && FixUpMarkup(s, tags) == s
  {
    assert s[0..] == s;
  }

  /** `</t>` for each open tag, innermost first: the closers undo the stack from the top. */
  lemma ClosersPush(stack: seq<string>, t: string)
    ensures Closers(stack + [t]) == "</" + t + ">" + Closers(stack)
  {
    assert (stack + [t])[..|stack|] == stack;
  }

  // ---------------------------------------------------------------------
  // Tags left open: a run of opening tags followed by plain text
  // ---------------------------------------------------------------------

  /** An opening tag as written in the text: its name and its attribute text. */
  datatype Opener = Opener(tag: string, attr: string)

  /** The opening tags `<tag attr>` written one after the other. */
  function Opens(os: seq<Opener>): string {
    if |os| == 0 then [] else "<" + os[0].tag + os[0].attr + ">" + Opens(os[1..])
  }

  /** The names of the opening tags, in order. */
  function Names(os: seq<Opener>): seq<string> {
    if |os| == 0 then [] else [os[0].tag] + Names(os[1..])
  }

  /** Every opener names a reachable lower-case tag and has attribute text the pattern accepts. */
  predicate Openable(tags: seq<string>, os: seq<Opener>) {
    forall i :: 0 <= i < |os| ==> ReachesTag(tags, os[i].tag) && LowerString(os[i].tag) == os[i].tag && AttrText(os[i].attr)
  }

  /** The tail of a run of usable openers is usable. */
  lemma OpenableTail(tags: seq<string>, os: seq<Opener>)
    requires |os| > 0 && Openable(tags, os)
    ensures ReachesTag(tags, os[0].tag) && LowerString(os[0].tag) == os[0].tag && AttrText(os[0].attr)
    ensures Openable(tags, os[1..])
  {
    forall i | 0 <= i < |os| - 1
      ensures ReachesTag(tags, os[1..][i].tag) && LowerString(os[1..][i].tag) == os[1..][i].tag && AttrText(os[1..][i].attr)
    {
      assert os[1..][i] == os[i + 1];
    }
  }

  /** With no '<' left from `cur` on, the intended scan ends with the text and the stack it has. */
  lemma IntendedNoTag(s: string, tags: seq<string>, cur: nat, stack: seq<string>)
    requires cur <= |s| && '<' !in s[cur..]
    ensures ScanIntended(s, tags, cur, stack) == (s, stack)
  {
  }

  /** An empty run followed by text with no '<' leaves both scans where they are. */
  lemma OpensEmpty(s: string, tags: seq<string>, cur: nat, stack: seq<string>, os: seq<Opener>, x: string)
    requires |os| == 0
    requires cur <= |s| && s[cur..] == Opens(os) + x && '<' !in x
    ensures Scan(s, tags, cur, stack) == Some(stack + Names(os))
    ensures ScanIntended(s, tags, cur, stack) == (s, stack + Names(os))
  {
    assert s[cur..] == x;
    assert stack + Names(os) == stack;
    ScanNoTag(s, tags, cur, stack);
    IntendedNoTag(s, tags, cur, stack);
  }

  /** Pushing the first name and then the rest is pushing them all. */
  lemma NamesPush(stack: seq<string>, os: seq<Opener>)
    requires |os| > 0
    ensures (stack + [os[0].tag]) + Names(os[1..]) == stack + Names(os)
  {
  }

  /** Where the first opener of a run ends, the rest of the run starts. */
  lemma OpensRestLayout(s: string, cur: nat, os: seq<Opener>, x: string, c: nat)
    requires |os| > 0
    requires cur <= |s| && s[cur..] == Opens(os) + x
    requires c == cur + |os[0].tag| + |os[0].attr| + 2
    ensures c <= |s| && s[cur..c] == "<" + os[0].tag + os[0].attr + ">"
    ensures s[c..] == Opens(os[1..]) + x
  {
    var h := "<" + os[0].tag + os[0].attr + ">";
    assert Opens(os) + x == h + (Opens(os[1..]) + x);
    assert s[cur..c] == s[cur..][..|h|];
    assert s[c..] == s[cur..][|h|..];
  }

  /** Both scans push a recognised opener and go on right after it. */
  lemma OpenedTransfer(s: string, tags: seq<string>, cur: nat, stack: seq<string>, t: string, attr: string, c: nat)
    requires ReachesTag(tags, t) && LowerString(t) == t && AttrText(attr)
    requires c == cur + |t| + |attr| + 2
    requires c <= |s| && s[cur..c] == "<" + t + attr + ">"
    ensures Scan(s, tags, cur, stack) == Scan(s, tags, c, stack + [t])
    ensures ScanIntended(s, tags, cur, stack) == ScanIntended(s, tags, c, stack + [t])
  {
    OpeningStep(s, tags, cur, stack, t, attr);
    ScanUnfold(s, tags, cur, stack, c, stack + [t]);
    IntendedUnfold(s, tags, cur, stack, s, c, stack + [t]);
  }

  /** The first opener of a run is pushed and both scans go on after it with the rest of the run. */
  lemma OpensFirstStep(s: string, tags: seq<string>, cur: nat, stack: seq<string>, os: seq<Opener>, x: string, c: nat)
    requires |os| > 0 && Openable(tags, os)
    requires cur <= |s| && s[cur..] == Opens(os) + x
    requires c == cur + |os[0].tag| + |os[0].attr| + 2
    ensures c <= |s| && s[c..] == Opens(os[1..]) + x
    ensures Openable(tags, os[1..])
    ensures Scan(s, tags, cur, stack) == Scan(s, tags, c, stack + [os[0].tag])
    ensures ScanIntended(s, tags, cur, stack) == ScanIntended(s, tags, c, stack + [os[0].tag])
  {
    OpensRestLayout(s, cur, os, x, c);
    OpenableTail(tags, os);
    OpenedTransfer(s, tags, cur, stack, os[0].tag, os[0].attr, c);
  }

  /**
    A run of opening tags at `cur`, followed by text with no '<', is
    pushed tag by tag by the scan as written: it ends with exactly those
    tags open, in order, on top of the stack it started with.
   */
  lemma {:induction false} ScanOpensFrom(s: string, tags: seq<string>, cur: nat, stack: seq<string>, os: seq<Opener>, x: string)
    requires Openable(tags, os)
    requires cur <= |s| && s[cur..] == Opens(os) + x && '<' !in x
    ensures Scan(s, tags, cur, stack) == Some(stack + Names(os))
    decreases |os|
  {
    if |os| == 0 {
      OpensEmpty(s, tags, cur, stack, os, x);
    } else {
      var c := cur + |os[0].tag| + |os[0].attr| + 2;
      OpensFirstStep(s, tags, cur, stack, os, x, c);
      ScanOpensFrom(s, tags, c, stack + [os[0].tag], os[1..], x);
      NamesPush(stack, os);
    }
  }

  /** The intended scan pushes the same run the same way, and cuts nothing out of the text. */
  lemma {:induction false} IntendedOpensFrom(s: string, tags: seq<string>, cur: nat, stack: seq<string>, os: seq<Opener>, x: string)
    requires Openable(tags, os)
    requires cur <= |s| && s[cur..] == Opens(os) + x && '<' !in x
    ensures ScanIntended(s, tags, cur, stack) == (s, stack + Names(os))
    decreases |os|
  {
    if |os| == 0 {
      OpensEmpty(s, tags, cur, stack, os, x);
    } else {
      var c := cur + |os[0].tag| + |os[0].attr| + 2;
      OpensFirstStep(s, tags, cur, stack, os, x, c);
      IntendedOpensFrom(s, tags, c, stack + [os[0].tag], os[1..], x);
      NamesPush(stack, os);
    }
  }

  /** Allowed tags with attribute text the pattern accepts are usable openers. */
  lemma AllowedOpenable(os: seq<Opener>, isWebvtt: bool)
    requires forall i :: 0 <= i < |os| ==> os[i].tag in AllowedTags(isWebvtt) && AttrText(os[i].attr)
    ensures Openable(AllowedTags(isWebvtt), os)
  {
    forall i | 0 <= i < |os|
      ensures ReachesTag(AllowedTags(isWebvtt), os[i].tag) && LowerString(os[i].tag) == os[i].tag
    {
      AllowedTagsReached(isWebvtt, os[i].tag);
      TagsAreLowerCase(isWebvtt, os[i].tag);
    }
  }

  /**
    Scanning allowed opening tags, with or without attributes, followed by
    plain text leaves exactly those tags open, in the order they were
    opened; the intended scan keeps the text as it is.
   */
  lemma ScanOpens(os: seq<Opener>, x: string, isWebvtt: bool)
    requires forall i :: 0 <= i < |os| ==> os[i].tag in AllowedTags(isWebvtt) && AttrText(os[i].attr)
    requires '<' !in x
    ensures Scan(Opens(os) + x, AllowedTags(isWebvtt), 0, []) == Some(Names(os))
    ensures ScanIntended(Opens(os) + x, AllowedTags(isWebvtt), 0, []) == (Opens(os) + x, Names(os))
  {
    var s := Opens(os) + x;
    AllowedOpenable(os, isWebvtt);
    assert s[0..] == Opens(os) + x;
    ScanOpensFrom(s, AllowedTags(isWebvtt), 0, [], os, x);
    IntendedOpensFrom(s, AllowedTags(isWebvtt), 0, [], os, x);
    assert [] + Names(os) == Names(os);
  }

  /**
    The fix-up as written appends to allowed opening tags followed by
    plain text the closing tag of each, innermost first: `<i><b>x`
    becomes `<i><b>x</b></i>`.
   */
  lemma FixUpClosesOpens(os: seq<Opener>, x: string, isWebvtt: bool)
    requires forall i :: 0 <= i < |os| ==> os[i].tag in AllowedTags(isWebvtt) && AttrText(os[i].attr)
    requires '<' !in x
    ensures FixUpDefined(Opens(os) + x, AllowedTags(isWebvtt))
    ensures FixUpMarkup(Opens(os) + x, AllowedTags(isWebvtt)) == Opens(os) + x + Closers(Names(os))
  {
    ScanOpens(os, x, isWebvtt);
    FixUpFromScan(Opens(os) + x, AllowedTags(isWebvtt), Names(os));
  }

  /** The intended fix-up closes the same tags in the same order. */
  lemma IntendedClosesOpens(os: seq<Opener>, x: string, isWebvtt: bool)
    requires forall i :: 0 <= i < |os| ==> os[i].tag in AllowedTags(isWebvtt) && AttrText(os[i].attr)
    requires '<' !in x
    ensures FixUpIntended(Opens(os) + x, AllowedTags(isWebvtt)) == Opens(os) + x + Closers(Names(os))
  {
    ScanOpens(os, x, isWebvtt);
  }

  /** The run `<i><b>` as text, and its names. */
  lemma ItalicBoldRun(os: seq<Opener>)
    requires os == [Opener("i", ""), Opener("b", "")]
    ensures Opens(os) == "<i><b>" && Names(os) == ["i", "b"]
  {
    var rest := os[1..];
    assert rest == [Opener("b", "")];
    assert Opens(rest[1..]) == [] && Names(rest[1..]) == [];
    assert Opens(rest) == "<b>" + Opens(rest[1..]);
    assert Opens(os) == "<i>" + Opens(rest);
  }

  /** Both openers of `<i><b>` are SRT tags without attributes. */
  lemma ItalicBoldAllowed(os: seq<Opener>)
    requires os == [Opener("i", ""), Opener("b", "")]
    ensures forall i :: 0 <= i < |os| ==> os[i].tag in AllowedTags(false) && AttrText(os[i].attr)
  {
    forall i | 0 <= i < |os|
      ensures os[i].tag in AllowedTags(false) && AttrText(os[i].attr)
    {
      assert os[i].tag == AllowedTags(false)[i];
    }
  }

  /** `b` opened inside `i` is closed first. */
  lemma ItalicBoldClosers()
    ensures Closers(["i", "b"]) == "</b></i>"
  {
    ClosersPush(["i"], "b");
    ClosersPush([], "i");
    assert ["i"] + ["b"] == ["i", "b"];
    assert [] + ["i"] == ["i"];
    assert Closers([]) == [];
  }

  /** The example: `<i><b>` and then plain text is closed with `</b></i>`, as written and as intended. */
  lemma FixUpNestedExample(x: string)
    requires '<' !in x
    ensures FixUpDefined("<i><b>" + x, SrtTags)
    ensures FixUpMarkup("<i><b>" + x, SrtTags) == "<i><b>" + x + "</b></i>"
    ensures FixUpIntended("<i><b>" + x, SrtTags) == "<i><b>" + x + "</b></i>"
  {
    var os := [Opener("i", ""), Opener("b", "")];
    ItalicBoldRun(os);
    ItalicBoldAllowed(os);
    ItalicBoldClosers();
    FixUpClosesOpens(os, x, false);
    IntendedClosesOpens(os, x, false);
  }

  // ---------------------------------------------------------------------
  // The whole sanitizer
  // ---------------------------------------------------------------------

  /** Text with no markup at all only loses its trailing newlines. */
  lemma SanitizePlainText(s: string, isWebvtt: bool)
    requires '&' !in s && '<' !in s
    ensures FixUpDefined(Cleaned(s, isWebvtt), AllowedTags(isWebvtt))
    ensures Sanitize(s, isWebvtt) == StripTrailingNewlines(s)
  {
    var tags := AllowedTags(isWebvtt);
    ContainsOnlyAfterAmp(s, "&lt;");
    RemoveNoEscape(s);
    var r := StripTrailingNewlines(s);
    assert forall i :: 0 <= i < |r| ==> r[i] == s[i];
    FixUpNoTag(r, tags);
  }
}
