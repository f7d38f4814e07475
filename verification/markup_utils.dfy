/**
  The subtitle markup sanitizer (gst_markup_utils_sanitize_subrip_text):
  four string passes over a cue's text. The two regular expressions the
  source builds with GRegex are fixed and small, so each is written here
  as an explicit matcher:
  - `&lt;(/)?\ *(TAG)(ATTR)&gt;` for unescaping, and
  - `<TAG(ATTR)>` for recognising an opening tag,
  where TAG is one of the allowed tags (tried in list order) and ATTR is
  ATTRIBUTE_REGEX, `\s?[a-zA-Z0-9\. \t\(\)]*`. The attribute class holds
  neither '&' nor '<' nor '>', so once the tag is fixed each pattern has
  at most one match at a given position and backtracking cannot change it.
 */
module MarkupUtils {
  import opened Wrappers
  import opened Ascii

  /** allowed_srt_tags */
  const SrtTags: seq<string> := ["i", "b", "u"]

  /** allowed_vtt_tags */
  const VttTags: seq<string> := ["i", "b", "c", "u", "v", "ruby", "rt"]

  /** The character class of ATTRIBUTE_REGEX: letters, digits, '.', space, tab, '(' and ')'. */
  predicate IsAttrChar(c: char) {
    IsLetter(c) || IsDigit(c) || c == '.' || c == ' ' || c == '\t' || c == '(' || c == ')'
  }

  /** The index of the first `c` in `s` at or after `from` (strchr). */
  function FindChar(s: string, c: char, from: nat): (r: Option<nat>)
    requires from <= |s|
    ensures r.Some? ==> from <= r.value < |s| && s[r.value] == c
    ensures r.Some? ==> forall k :: from <= k < r.value ==> s[k] != c
    ensures r.None? ==> forall k :: from <= k < |s| ==> s[k] != c
    decreases |s| - from
  {
    if from == |s| then None
    else if s[from] == c then Some(from)
    else FindChar(s, c, from + 1)
  }

  /** The index of the first occurrence of `p` in `s` at or after `from` (strstr). */
  function Find(s: string, p: string, from: nat): (r: Option<nat>)
    requires from <= |s|
    ensures r.Some? ==> from <= r.value && OccursAt(s, p, r.value)
    ensures r.Some? ==> forall k :: from <= k < r.value ==> !OccursAt(s, p, k)
    ensures r.None? ==> forall k :: from <= k <= |s| ==> !OccursAt(s, p, k)
    decreases |s| - from
  {
    if OccursAt(s, p, from) then Some(from)
    else if from == |s| then None
    else Find(s, p, from + 1)
  }

  /** The end of the run of characters of `s`, from `q` on, that `inRun` accepts. */
  function RunEnd(s: string, q: nat, inRun: char -> bool): (k: nat)
    requires q <= |s|
    ensures q <= k <= |s|
    ensures forall x :: q <= x < k ==> inRun(s[x])
    ensures k < |s| ==> !inRun(s[k])
    decreases |s| - q
  {
    if q == |s| || !inRun(s[q]) then q else RunEnd(s, q + 1, inRun)
  }

  /**
    Where a match of ATTRIBUTE_REGEX starting at `q` ends: `\s?` takes one
    whitespace character if there is one, then the class takes the longest
    run it can. The run cannot be shortened to let the next token match,
    since none of those tokens starts with a class character.
   */
  function AttrEnd(s: string, q: nat): (k: nat)
    requires q <= |s|
    ensures q <= k <= |s|
  {
    var q' := if q < |s| && IsSpace(s[q]) then q + 1 else q;
    RunEnd(s, q', IsAttrChar)
  }

  /** A match of the escaped-tag pattern: closing slash, tag, attribute text, length. */
  datatype EscapedTag = EscapedTag(closing: bool, tag: string, attr: string, len: nat)

  /**
    Tries the allowed tags in order at index `p` (just past `&lt;`, the
    optional '/' and the spaces) and returns the first for which the rest
    of the pattern, ATTRIBUTE_REGEX then `&gt;`, matches.
   */
  function MatchEscapedTagFrom(s: string, p: nat, closing: bool, tags: seq<string>): (r: Option<EscapedTag>)
    requires p <= |s|
    ensures r.Some? ==> r.value.tag in tags && p + |r.value.tag| + |r.value.attr| + 4 == r.value.len <= |s|
    ensures r.Some? ==> r.value.closing == closing
    ensures r.Some? ==> s[r.value.len - 4..r.value.len] == "&gt;"
    decreases |tags|
  {
    if |tags| == 0 then None
    else
      var t := tags[0];
      if StartsWith(s[p..], t) then
        var k := AttrEnd(s, p + |t|);
        if StartsWith(s[k..], "&gt;") then Some(EscapedTag(closing, t, s[p + |t|..k], k + 4))
        else MatchEscapedTagFrom(s, p, closing, tags[1..])
      else MatchEscapedTagFrom(s, p, closing, tags[1..])
  }

  /** The escaped-tag pattern `&lt;(/)?\ *(TAG)(ATTR)&gt;` anchored at the start of `s`. */
  function MatchEscapedTag(s: string, tags: seq<string>): (r: Option<EscapedTag>)
    ensures r.Some? ==> StartsWith(s, "&lt;") && r.value.tag in tags
    ensures r.Some? ==> |r.value.tag| + |r.value.attr| + 8 + (if r.value.closing then 1 else 0) <= r.value.len <= |s|
    ensures r.Some? ==> s[r.value.len - 4..r.value.len] == "&gt;"
  {
    if !StartsWith(s, "&lt;") then None
    else
      var closing := 4 < |s| && s[4] == '/';
      var p := if closing then 5 else 4;
      MatchEscapedTagFrom(s, RunEnd(s, p, c => c == ' '), closing, tags)
  }

  /** The replacement `<\1\2\3>`, or `<\1\2>` when attributes are not kept. */
  function Unescaped(m: EscapedTag, keepAttributes: bool): string {
    "<" + (if m.closing then "/" else "") + m.tag + (if keepAttributes then m.attr else "") + ">"
  }

  /**
    g_regex_replace with the escaped-tag pattern: every leftmost,
    non-overlapping match is rewritten, all other text is copied. Each
    rewrite drops at least the six characters of `&lt;` and `&gt;` that
    become `<` and `>`, so the result is never longer than the input.
   */
  function UnescapeAll(s: string, tags: seq<string>, keepAttributes: bool): (r: string)
    ensures |r| <= |s|
    decreases |s|
  {
    if |s| == 0 then []
    else match MatchEscapedTag(s, tags)
      case Some(m) => Unescaped(m, keepAttributes) + UnescapeAll(s[m.len..], tags, keepAttributes)
      case None => [s[0]] + UnescapeAll(s[1..], tags, keepAttributes)
  }

  /**
    markup_utils_unescape_formatting: unescapes the allowed tags, keeping
    their attributes only when `keepAttributes` (WebVTT) holds; a text with
    no `&lt;` is returned as it is without running the expression.
   */
  function UnescapeFormatting(s: string, tags: seq<string>, keepAttributes: bool): (r: string)
    ensures |r| <= |s|
    ensures !Contains(s, "&lt;") ==> r == s
  {
    if !Contains(s, "&lt;") then s else UnescapeAll(s, tags, keepAttributes)
  }

  /**
    subrip_remove_unhandled_tag at the start of `s`: when `s` starts with
    `&lt;`, a `&gt;` follows, and the tag name (after one optional '/')
    starts with an ASCII letter, the index just past that first `&gt;`.
   */
  function UnhandledTagEnd(s: string): (r: Option<nat>)
    ensures r.Some? ==> StartsWith(s, "&lt;") && 8 <= r.value <= |s|
  {
    if !StartsWith(s, "&lt;") then None
    else match Find(s, "&gt;", 4)
      case None => None
      case Some(g) =>
        var t := if s[4] == '/' then 5 else 4;
        if IsLetter(s[t]) then Some(g + 4) else None
  }

  /**
    subrip_remove_unhandled_tags: walks the text; at each position where an
    unhandled escaped tag starts, the tag is cut out and the same position
    is examined again; anywhere else the walk moves on by one character.
   */
  function RemoveUnhandledTags(s: string): (r: string)
    ensures |r| <= |s|
    decreases |s|
  {
    if |s| == 0 then []
    else match UnhandledTagEnd(s)
      case Some(e) => RemoveUnhandledTags(s[e..])
      case None => [s[0]] + RemoveUnhandledTags(s[1..])
  }

  /**
    strip_trailing_newlines: drops trailing '\n' characters, but never the
    first character. The result is the prefix of `s` that leaves only
    newlines behind and is either at most one character long or does not
    end in a newline.
   */
  function StripTrailingNewlines(s: string): (r: string)
    ensures |r| <= |s| && r == s[..|r|]
    ensures |s| > 0 ==> |r| >= 1
    ensures forall k :: |r| <= k < |s| ==> s[k] == '\n'
    ensures |r| > 1 ==> r[|r| - 1] != '\n'
    decreases |s|
  {
    if |s| > 1 && s[|s| - 1] == '\n' then StripTrailingNewlines(s[..|s| - 1]) else s
  }

  /**
    g_ascii_strncasecmp (a, b, n) == 0: the first `n` characters agree up to
    ASCII case, where a string that ends early agrees only with one that
    ends at the same place.
   */
  predicate StrNCaseEqual(a: string, b: string, n: nat)
    decreases n
  {
    if n == 0 then true
    else if |a| == 0 || |b| == 0 then |a| == |b|
    else ToLower(a[0]) == ToLower(b[0]) && StrNCaseEqual(a[1..], b[1..], n - 1)
  }

  /**
    The opening tag recognised at index `i`: the first allowed tag, in
    list order, for which `<TAG(ATTR)>` matches at `i` (case-sensitively),
    with the length of the match.
   */
  function MatchOpenTag(s: string, i: nat, tags: seq<string>): (r: Option<(string, nat)>)
    requires i <= |s|
    ensures r.Some? ==> r.value.0 in tags && |r.value.0| + 2 <= r.value.1 && i + r.value.1 <= |s|
    ensures r.Some? ==> StartsWith(s[i..], "<" + r.value.0) && s[i + r.value.1 - 1] == '>'
    decreases |tags|
  {
    if |tags| == 0 then None
    else
      var t := tags[0];
      if StartsWith(s[i..], "<" + t) then
        var k := AttrEnd(s, i + 1 + |t|);
        if k < |s| && s[k] == '>' then Some((t, k + 1 - i))
        else MatchOpenTag(s, i, tags[1..])
      else MatchOpenTag(s, i, tags[1..])
  }

  /** The lower-cased allowed tags: what the fix-up pass pushes on its stack. */
  function LowerSet(tags: seq<string>): set<string> {
    set t | t in tags :: LowerString(t)
  }

  /** Where one step of the fix-up scan leaves it. */
  datatype ScanState = Done | Broken | Next(cur: nat, stack: seq<string>)

  /**
    One step of the scan of markup_utils_fix_up_markup from `cur`, with the
    stack of open tags. At the next '<': a recognised opening tag is pushed
    and skipped. Otherwise, for `</`, the first '>' from `cur` on (not from
    the '<') is found, and the closing tag pops the stack when the text
    from the character before that '>' compares equal, up to case and over
    the top tag's length, with the top tag. When the test fails the scan
    reaches the branch that cuts the closing tag out (Broken: its memmove
    reads past the terminator and its rewind can leave the buffer, so it
    is outside the model). The test fails not only for a tag that is not
    open, but for every closing tag of two or more letters and for the
    outer closing tag of two different nested tags. Any other '<' is
    stepped over.
   */
  function ScanStep(s: string, tags: seq<string>, cur: nat, stack: seq<string>): (r: ScanState)
    requires cur <= |s|
    ensures r.Next? ==> cur < r.cur <= |s|
    ensures r.Next? ==> r.stack == stack || (|stack| > 0 && r.stack == stack[..|stack| - 1])
                        || (|r.stack| == |stack| + 1 && r.stack[..|stack|] == stack && r.stack[|stack|] in LowerSet(tags))
    ensures r.Done? <==> FindChar(s, '<', cur).None?
  {
    match FindChar(s, '<', cur)
    case None => Done
    case Some(n) =>
      match MatchOpenTag(s, n, tags)
      case Some(m) => Next(n + m.1, stack + [LowerString(m.0)])
      case None =>
        if n + 1 < |s| && s[n + 1] == '/' then
          match FindChar(s, '>', cur)
          case None => Next(n + 1, stack)
          case Some(e) =>
            if |stack| > 0 && e > 0 && StrNCaseEqual(s[e - 1..], stack[|stack| - 1], |stack[|stack| - 1]|) then
              Next(n + 1, stack[..|stack| - 1])
            else Broken
        else Next(n + 1, stack)
  }

  /**
    The stack of open tags after scanning from `cur`, or None when the scan
    is Broken. Only lower-cased allowed tags are ever added to the stack,
    and with no '<' left the stack is returned as it is.
   */
  function Scan(s: string, tags: seq<string>, cur: nat, stack: seq<string>): (r: Option<seq<string>>)
    requires cur <= |s|
    ensures r.Some? ==> forall x :: x in r.value ==> x in stack || x in LowerSet(tags)
    ensures FindChar(s, '<', cur).None? ==> r == Some(stack)
    decreases |s| - cur
  {
    match ScanStep(s, tags, cur, stack)
    case Done => Some(stack)
    case Broken => None
    case Next(c, st) =>
      assert forall x :: x in st ==> x in stack || x in LowerSet(tags) by {
        if st != stack && |st| == |stack| + 1 {
          assert st == stack + [st[|stack|]];
        }
      }
      Scan(s, tags, c, st)
  }

  /**
    The scan of `s` never reaches the cut-out branch. This holds for flat
    markup whose closing tags are one letter long and match the tag they
    close; it fails for two different nested tags and for tags such as
    `ruby` and `rt`.
   */
  predicate FixUpDefined(s: string, tags: seq<string>) {
    Scan(s, tags, 0, []).Some?
  }

  /** `</t>` for each tag of the stack, the top first. */
  function Closers(stack: seq<string>): (r: string)
    decreases |stack|
  {
    if |stack| == 0 then []
    else "</" + stack[|stack| - 1] + ">" + Closers(stack[..|stack| - 1])
  }

  /** `x` is a run of closing tags, each naming a lower-cased allowed tag. */
  ghost predicate ClosingTags(x: string, tags: seq<string>) {
    exists stack :: (forall t :: t in stack ==> t in LowerSet(tags)) && x == Closers(stack)
  }

  /**
    markup_utils_fix_up_markup: the text, unchanged, followed by a closing
    tag for every tag still open at its end, innermost first. Only allowed
    tags are closed, and a text with no '<' comes back as it is.
   */
  function FixUpMarkup(s: string, tags: seq<string>): (r: string)
    requires FixUpDefined(s, tags)
    ensures |r| >= |s| && r[..|s|] == s
    ensures ClosingTags(r[|s|..], tags)
    ensures '<' !in s ==> r == s
  {
    var stack := Scan(s, tags, 0, []).value;
    assert s[0..] == s;
    assert (s + Closers(stack))[|s|..] == Closers(stack);
    s + Closers(stack)
  }

  /** Where one step of the intended scan leaves it: done, or the text, position and stack to go on with. */
  datatype IntendedState = Finished | Resume(text: string, cur: nat, stack: seq<string>)

  /**
    One step of the fix-up scan as evidently intended: a closing tag runs
    from its own '<' to the next '>', the name after `</` is compared with
    the top tag, and a closing tag that does not close the top tag is cut
    out, the scan resuming at the same position.
   */
  function IntendedStep(s: string, tags: seq<string>, cur: nat, stack: seq<string>): (r: IntendedState)
    requires cur <= |s|
    ensures r.Resume? ==> cur <= r.cur <= |r.text| <= |s| && |r.text| - r.cur < |s| - cur
    ensures r.Resume? ==> r.text[..cur] == s[..cur]
    ensures r.Resume? ==> r.stack == stack || (|stack| > 0 && r.stack == stack[..|stack| - 1])
                          || (|r.stack| == |stack| + 1 && r.stack[..|stack|] == stack && r.stack[|stack|] in LowerSet(tags))
    ensures r.Finished? <==> FindChar(s, '<', cur).None?
  {
    match FindChar(s, '<', cur)
    case None => Finished
    case Some(n) =>
      match MatchOpenTag(s, n, tags)
      case Some(m) => Resume(s, n + m.1, stack + [LowerString(m.0)])
      case None =>
        if n + 1 < |s| && s[n + 1] == '/' then
          match FindChar(s, '>', n)
          case None => Resume(s, n + 1, stack)
          case Some(e) =>
            if |stack| > 0 && StrNCaseEqual(s[n + 2..], stack[|stack| - 1], |stack[|stack| - 1]|) then
              Resume(s, n + 1, stack[..|stack| - 1])
            else
              var s' := s[..n] + s[e + 1..];
              assert s'[..cur] == s[..cur];
              Resume(s', n, stack)
        else Resume(s, n + 1, stack)
  }

  /**
    The intended scan run to the end: the text with the unopened closing
    tags cut out, and the tags left open. The text before `cur` is kept,
    only lower-cased allowed tags are added to the stack, and with no '<'
    left nothing changes.
   */
  function ScanIntended(s: string, tags: seq<string>, cur: nat, stack: seq<string>): (r: (string, seq<string>))
    requires cur <= |s|
    ensures cur <= |r.0| <= |s| && r.0[..cur] == s[..cur]
    ensures forall x :: x in r.1 ==> x in stack || x in LowerSet(tags)
    ensures FindChar(s, '<', cur).None? ==> r == (s, stack)
    decreases |s| - cur
  {
    match IntendedStep(s, tags, cur, stack)
    case Finished => (s, stack)
    case Resume(t, c, st) =>
      assert forall x :: x in st ==> x in stack || x in LowerSet(tags) by {
        if st != stack && |st| == |stack| + 1 {
          assert st == stack + [st[|stack|]];
        }
      }
      var r := ScanIntended(t, tags, c, st);
      assert r.0[..cur] == r.0[..c][..cur];
      r
  }

  /**
    markup_utils_fix_up_markup as evidently intended: defined on every
    text, it cuts out the closing tags that close nothing open and appends
    a closing tag for each allowed tag left open.
   */
  function FixUpIntended(s: string, tags: seq<string>): (r: string)
    ensures |r| >= |ScanIntended(s, tags, 0, []).0|
    ensures ClosingTags(r[|ScanIntended(s, tags, 0, []).0|..], tags)
    ensures '<' !in s ==> r == s
  {
    var (text, stack) := ScanIntended(s, tags, 0, []);
    assert s[0..] == s;
    assert (text + Closers(stack))[|text|..] == Closers(stack);
    text + Closers(stack)
  }

  /** The tag list the cue's format allows. */
  function AllowedTags(isWebvtt: bool): seq<string> {
    if isWebvtt then VttTags else SrtTags
  }

  /** The text the fix-up pass receives: unescaped, cleaned of unhandled tags, stripped. */
  function Cleaned(s: string, isWebvtt: bool): (r: string)
    ensures |r| <= |s|
  {
    var tags := AllowedTags(isWebvtt);
    StripTrailingNewlines(RemoveUnhandledTags(UnescapeFormatting(s, tags, isWebvtt)))
  }

  /**
    gst_markup_utils_sanitize_subrip_text: unescape the allowed tags
    (keeping attributes for WebVTT), remove the other escaped tags, strip
    trailing newlines, and close what is left open.
   */
  function Sanitize(s: string, isWebvtt: bool): (r: string)
    requires FixUpDefined(Cleaned(s, isWebvtt), AllowedTags(isWebvtt))
    ensures |r| >= |Cleaned(s, isWebvtt)| && r[..|Cleaned(s, isWebvtt)|] == Cleaned(s, isWebvtt)
    ensures ClosingTags(r[|Cleaned(s, isWebvtt)|..], AllowedTags(isWebvtt))
  {
    FixUpMarkup(Cleaned(s, isWebvtt), AllowedTags(isWebvtt))
  }
}
