# HTTP cookies, the cookie jar, and the subtitle markup sanitizer

A Dafny model of three pieces of the GStreamer base libraries, with proofs
about each:

- the HTTP cookie record `GstHttpCookie`: its constructor, copy, setters,
  the Max-Age rule and `equal`;
- the cookie jar `GstHttpCookieJar`. It keeps cookies in per-domain
  buckets under a case-insensitive domain key, and tracks a re-entrancy
  flag ("ongoing operation"). It also keeps a serial table and emits a
  `changed(author, old, new)` signal. The model covers `add_cookie`,
  `delete_cookie` and `all_cookies`;
- the SubRip/WebVTT cue sanitizer `gst_markup_utils_sanitize_subrip_text`.
  It makes four passes over the cue text:
  1. unescape the allowed tags;
  2. cut out the remaining escaped tags;
  3. strip trailing newlines;
  4. close the tags that are left open.

Modules:

- `Wrappers`: `Option`, which stands for a nullable pointer.
- `Ascii`: the ASCII character classes and case mapping.
- `CaseKey`: the jar's case-insensitive hash and equality on domain names.
- `HttpCookie`: the cookie record.
- `CookieJar`: the jar as a functional state machine, plus the invariant
  `Valid`.
- `JarProperties`: what the jar's operations preserve and how they change
  its contents.
- `MarkupUtils`: the four sanitizer passes, with their two regular
  expressions written out as explicit matchers.
- `MarkupProperties`: the sanitizer's properties.

The jar is a value, and every operation returns a `Step`: the new jar
together with the list of `changed` signals it emits.

- The wall clock is a parameter `now`. Instants are integers counting
  microseconds, the resolution of `GDateTime`.
- The lock is not modelled. Each operation runs atomically.
- Pointers that may be NULL become `Option`.
- `guint` arithmetic wraps modulo 2^32.
- Characters stand for the bytes of C strings.

## Model

| member | source | states |
|---|---|---|
| Ascii.ToLower | gst-libs/gst/pbutils/markup-utils.c:200 | ASCII upper-case letters map to the lower-case letter 32 code points below; every other character is unchanged |
| Ascii.LowerString | gst-libs/gst/pbutils/markup-utils.c:139 | g_ascii_strdown keeps the length and lowers every character |
| CaseKey.StrCaseHash | gst-libs/gst/http/gsthttpcookiejar.c:104-115 | the shift-and-subtract loop computes the reference hash: h(s·c) = 31·h(s) + toupper(c) mod 2^32, sign-extending bytes 128-255; the empty string hashes to 0 |
| CaseKey.ShiftSubIsTimes31 | gst-libs/gst/http/gsthttpcookiejar.c:112 | `(h << 5) - h + c` in 32-bit arithmetic equals 31·h + c modulo 2^32 |
| CaseKey.CaseEqualIffSameKey | gst-libs/gst/http/gsthttpcookiejar.c:126-133 | two domain names compare equal ignoring ASCII case exactly when their lower-cased keys are equal, which is why one bucket per key is faithful |
| CaseKey.SameKeySameHash | gst-libs/gst/http/gsthttpcookiejar.c:104-115 | names with the same key hash alike |
| CaseKey.CaseEqualSameHash | gst-libs/gst/http/gsthttpcookiejar.c:104-133 | the hash is consistent with the equality the table uses: case-insensitively equal names hash alike |
| HttpCookie.MaxAgeExpiry | gst-libs/gst/http/gsthttpcookie.c:322-333 | Max-Age -1 gives no expiry; 0 gives the epoch; any other n gives now + n seconds |
| HttpCookie.MaxAgeExpiryAsWritten | gst-libs/gst/http/gsthttpcookie.c:322-328 | as the code is written, Max-Age 0 stores no expiry (the epoch is built with a NULL time zone, which `g_date_time_new` refuses); every other Max-Age gives what MaxAgeExpiry gives |
| HttpCookie.SetMaxAge | gst-libs/gst/http/gsthttpcookie.c:316-334 | only the expiry changes, and it becomes the Max-Age expiry |
| HttpCookie.New | gst-libs/gst/http/gsthttpcookie.c:154-171 | a missing name or value gives no cookie; otherwise the fields are the arguments, with a Max-Age expiry, and secure and HttpOnly off; a missing domain is still accepted |
| HttpCookie.Copy | gst-libs/gst/http/gsthttpcookie.c:96-111 | the copy agrees with the original in every field |
| HttpCookie.SetName | gst-libs/gst/http/gsthttpcookie.c:198-203 | the name becomes the argument and every other field is unchanged |
| HttpCookie.SetValue | gst-libs/gst/http/gsthttpcookie.c:230-235 | the value becomes the argument and every other field is unchanged |
| HttpCookie.SetDomain | gst-libs/gst/http/gsthttpcookie.c:262-267 | the domain becomes the argument and every other field is unchanged |
| HttpCookie.SetPath | gst-libs/gst/http/gsthttpcookie.c:294-299 | the path becomes the argument and every other field is unchanged |
| HttpCookie.SetExpires | gst-libs/gst/http/gsthttpcookie.c:366-376 | a missing expiry makes a session cookie; a given one is taken as is; nothing else changes |
| HttpCookie.SetSecure | gst-libs/gst/http/gsthttpcookie.c:405-409 | only the secure flag changes |
| HttpCookie.SetHttpOnly | gst-libs/gst/http/gsthttpcookie.c:438-442 | only the HttpOnly flag changes |
| HttpCookie.Equal | gst-libs/gst/http/gsthttpcookie.c:495-504 | cookies are equal exactly when name, value and path agree; the path is compared only when name and value already agree, and must then be present on both |
| HttpCookie.CopyIsEqual | gst-libs/gst/http/gsthttpcookie.c:96-111 | a copy is `equal` to its original |
| HttpCookie.EqualReflexive | gst-libs/gst/http/gsthttpcookie.c:495-504 | a cookie with a path is `equal` to itself |
| HttpCookie.EqualSymmetric | gst-libs/gst/http/gsthttpcookie.c:495-504 | `equal` is symmetric, including where it is defined |
| HttpCookie.EqualTransitive | gst-libs/gst/http/gsthttpcookie.c:495-504 | `equal` is transitive |
| HttpCookie.EqualIgnoresOtherFields | gst-libs/gst/http/gsthttpcookie.c:488-489 | `equal` does not look at domain, expiry, secure or HttpOnly |
| CookieJar.Init | gst-libs/gst/http/gsthttpcookiejar.c:135-143 | a new jar has no buckets, no serials, serial 0, no operation in flight, and is not yet constructed |
| CookieJar.Constructed | gst-libs/gst/http/gsthttpcookiejar.c:145-151 | only the constructed flag is raised |
| CookieJar.CheckStartOperation | gst-libs/gst/http/gsthttpcookiejar.c:78-86 | succeeds exactly when no operation is in flight; the flag is raised afterwards either way; nothing else changes |
| CookieJar.FinishOperation | gst-libs/gst/http/gsthttpcookiejar.c:88-94 | lowers the flag and changes nothing else |
| CookieJar.NextSerial | gst-libs/gst/http/gsthttpcookiejar.c:235 | the guint serial counts up by one and wraps to 0 after 2^32-1 |
| CookieJar.JarChanged | gst-libs/gst/http/gsthttpcookiejar.c:226-243 | the old cookie loses its serial; a new cookie gets the next serial; other serials and the buckets are untouched; the signal fires once, and only after construction |
| CookieJar.RemoveAt | gst-libs/gst/http/gsthttpcookiejar.c:308 | unlinking keeps the cookies before the link and shifts the ones after it down by one |
| CookieJar.FindSlot | gst-libs/gst/http/gsthttpcookiejar.c:298-301 | the first cookie of the bucket with the same name and the same (possibly absent) path, or none if there is no such cookie |
| CookieJar.Add | gst-libs/gst/http/gsthttpcookiejar.c:271-347 | turned away while an operation is in flight; otherwise one of four paths: (1) an expired newcomer unlinks the matching stored cookie and signals (old, none); (2) a live newcomer replaces it in place and signals (old, new) only when the values differ; (3) an expired newcomer with no match is dropped; (4) a live one with no match is appended and signals (none, new). The serials follow, and the flag ends lowered |
| CookieJar.FindEqual | gst-libs/gst/http/gsthttpcookiejar.c:422-424 | the first cookie of the bucket `equal` to the argument, or none if there is no such cookie |
| CookieJar.DeleteLocked | gst-libs/gst/http/gsthttpcookiejar.c:415-435 | the first `equal` cookie of the domain's bucket is unlinked, loses its serial and is signalled as (old, none); a miss changes nothing; the flag ends lowered |
| CookieJar.DeleteCookie | gst-libs/gst/http/gsthttpcookiejar.c:397-436 | as written: on an idle jar the call only raises the flag; the deletion runs only when an operation is already in flight |
| CookieJar.DeleteIntended | gst-libs/gst/http/gsthttpcookiejar.c:397-436 | with the guard corrected: turned away while an operation is in flight; otherwise the deletion proper |
| CookieJar.ContentsUpdate | gst-libs/gst/http/gsthttpcookiejar.c:309-310 | writing one bucket changes the multiset of all stored cookies by that bucket's old and new contents |
| CookieJar.AllCookies | gst-libs/gst/http/gsthttpcookiejar.c:362-386 | the list holds every stored cookie exactly as often as it is stored, in any bucket order |
| CookieJar.PrependCopies | gst-libs/gst/http/gsthttpcookiejar.c:380-381 | prepending a bucket's copies adds exactly that bucket's cookies to the list |
| JarProperties.InitValid | gst-libs/gst/http/gsthttpcookiejar.c:135-151 | a new jar, before and after construction, satisfies the jar invariant and holds no cookie |
| JarProperties.AddPreservesValid | gst-libs/gst/http/gsthttpcookiejar.c:297-346 | `add` keeps each cookie in its own domain's bucket and keeps the (name, path) slots of a bucket distinct |
| JarProperties.AddContents | gst-libs/gst/http/gsthttpcookiejar.c:302-344 | the four paths of `add`: an expired newcomer removes exactly the matching cookie; a live one replaces it; a live newcomer with no match adds exactly itself; an expired one with no match changes nothing |
| JarProperties.DeleteLockedPreservesValid | gst-libs/gst/http/gsthttpcookiejar.c:415-435 | the deletion proper keeps the jar invariant |
| JarProperties.DeleteLockedContents | gst-libs/gst/http/gsthttpcookiejar.c:422-433 | a hit removes exactly the cookie found; a miss removes nothing |
| JarProperties.DeleteCookiePreservesValid | gst-libs/gst/http/gsthttpcookiejar.c:397-436 | `delete` as written keeps the jar invariant |
| JarProperties.DeleteIntendedPreservesValid | gst-libs/gst/http/gsthttpcookiejar.c:397-436 | the corrected `delete` keeps the jar invariant |
| JarProperties.SameBucketIffCaseEqual | gst-libs/gst/http/gsthttpcookiejar.c:140-141 | two cookies land in the same bucket exactly when their domains compare equal ignoring ASCII case |
| JarProperties.IdleDeleteBlocksAdd | gst-libs/gst/http/gsthttpcookiejar.c:410-413 | after `delete` on an idle jar, nothing is removed, no signal fires, the flag stays raised, and the next `add` is turned away |
| JarProperties.DeleteTwiceRemoves | gst-libs/gst/http/gsthttpcookiejar.c:409-433 | the first `delete` removes nothing; the second removes exactly the first `equal` cookie, signals it and lowers the flag |
| JarProperties.DeleteGuardInverted | gst-libs/gst/http/gsthttpcookiejar.c:410-413 | on an idle jar holding a match, `delete` as written leaves the match stored and signals nothing; the corrected `delete` removes it and signals it |
| JarProperties.SameValueSwapKeepsSerials | gst-libs/gst/http/gsthttpcookiejar.c:314-320 | a live newcomer with the same value as the cookie in its slot takes that slot, fires nothing, and leaves the serial table and counter as they were; re-adding a cookie a valid jar already holds leaves the jar as it was |
| JarProperties.MaxAgeZeroAsWrittenNeverExpires | gst-libs/gst/http/gsthttpcookie.c:322-328 | with Max-Age 0 as written the cookie is never past, while the documented rule makes it past at every instant after the epoch |
| JarProperties.MaxAgeAndPast | gst-libs/gst/http/gsthttpcookiejar.c:245-256 | as the jar judges expiry: a session cookie is never past; Max-Age 0 is past at every instant after the epoch; Max-Age n set at t is past exactly after t + n seconds |
| MarkupUtils.FindChar | gst-libs/gst/pbutils/markup-utils.c:112 | strchr: the first index at or after the start holding the character, or none |
| MarkupUtils.Find | gst-libs/gst/pbutils/markup-utils.c:219 | strstr: the first occurrence at or after the start, or none |
| MarkupUtils.MatchEscapedTag | gst-libs/gst/pbutils/markup-utils.c:63-64 | a match starts with `&lt;`, names an allowed tag and ends with `&gt;`; it is at least eight characters plus the tag, the attributes and the slash |
| MarkupUtils.UnescapeAll | gst-libs/gst/pbutils/markup-utils.c:66-78 | the rewrite never makes the text longer |
| MarkupUtils.UnescapeFormatting | gst-libs/gst/pbutils/markup-utils.c:46-85 | the text does not grow; a text with no `&lt;` is returned unchanged |
| MarkupUtils.RemoveUnhandledTags | gst-libs/gst/pbutils/markup-utils.c:213-224 | the text never grows |
| MarkupUtils.StripTrailingNewlines | gst-libs/gst/pbutils/markup-utils.c:226-238 | the result is a prefix of the input and only newlines are removed; a non-empty input keeps at least one character; the result ends in a newline only if it is one character long |
| MarkupUtils.MatchOpenTag | gst-libs/gst/pbutils/markup-utils.c:117-143 | a recognised opening tag is an allowed tag spelled exactly, case included, right after the `<`; the match ends with `>` and spans at least `<`, the tag and `>` |
| MarkupUtils.ScanStep | gst-libs/gst/pbutils/markup-utils.c:111-169 | each step moves forward; it leaves the stack as it was, pops its top, or pushes one lower-cased allowed tag; the scan ends exactly when no `<` is left |
| MarkupUtils.Scan | gst-libs/gst/pbutils/markup-utils.c:111-170 | every tag the scan leaves open is the lower-cased form of an allowed tag; with no `<` left the stack is returned as it is |
| MarkupUtils.FixUpMarkup | gst-libs/gst/pbutils/markup-utils.c:172-187 | the text is kept unchanged, followed by a run of closing tags that each name a lower-cased allowed tag; a text with no `<` comes back as it is |
| MarkupUtils.IntendedStep | gst-libs/gst/pbutils/markup-utils.c:151-169 | one step of the corrected scan moves forward or shortens the text, keeps the text before the position, and leaves the stack as it was, pops it, or pushes one lower-cased allowed tag; it ends exactly when no `<` is left |
| MarkupUtils.ScanIntended | gst-libs/gst/pbutils/markup-utils.c:111-170 | the corrected scan keeps the text before the start position, never lengthens the text, and leaves open only lower-cased allowed tags |
| MarkupUtils.FixUpIntended | gst-libs/gst/pbutils/markup-utils.c:87-187 | the corrected fix-up is defined on every text; the scanned text is followed by closing tags of allowed tags only; a text with no `<` comes back as it is |
| MarkupUtils.Sanitize | gst-libs/gst/pbutils/markup-utils.c:248-256 | the output starts with the cleaned text (unescaped, unhandled tags removed, trailing newlines stripped), and what follows is a run of closing tags of the format's allowed tags |
| MarkupProperties.UnescapeTag | gst-libs/gst/pbutils/markup-utils.c:63-74 | an escaped reachable tag, with or without its slash, with any number of spaces before the tag, and with any attribute text (a leading whitespace character included), becomes `<`, the slash if present, the tag, the attributes if kept, and `>`; the spaces are dropped; the rest of the text is rewritten independently |
| MarkupProperties.UnescapeKeepsPlain | gst-libs/gst/pbutils/markup-utils.c:63-74 | text with no `&` passes through the expression unchanged, whatever follows it |
| MarkupProperties.UnescapeAllowedTag | gst-libs/gst/pbutils/markup-utils.c:37-70 | with the format's tag list, every allowed tag, with any spaces and attribute text, is unescaped; its attributes are kept only for WebVTT |
| MarkupProperties.AllowedTagsReached | gst-libs/gst/pbutils/markup-utils.c:37-39 | no allowed tag is shadowed by an earlier alternative in either list; every allowed tag starts with a letter |
| MarkupProperties.TagsAreLowerCase | gst-libs/gst/pbutils/markup-utils.c:37-39 | the allowed tags are already lower case, so the stack holds them as written |
| MarkupProperties.UnescapeAllNoEscape | gst-libs/gst/pbutils/markup-utils.c:63-74 | the expression rewrites nothing in a text without `&lt;` |
| MarkupProperties.UnescapeShortcutHarmless | gst-libs/gst/pbutils/markup-utils.c:55-57 | the early return on a text without `&lt;` never changes the result |
| MarkupProperties.RemoveIsSubsequence | gst-libs/gst/pbutils/markup-utils.c:207-223 | removal only cuts characters out; it adds and reorders nothing |
| MarkupProperties.RemoveKeepsPlain | gst-libs/gst/pbutils/markup-utils.c:218-223 | text with no `&` passes through the removal unchanged, whatever follows it |
| MarkupProperties.RemoveKeepsFirst | gst-libs/gst/pbutils/markup-utils.c:196-223 | the first character is kept and the walk moves on when the text does not start with `&lt;`, when no `&gt;` follows, or when the name does not start with a letter |
| MarkupProperties.RemoveNoEscape | gst-libs/gst/pbutils/markup-utils.c:219 | a text without `&lt;` is unchanged |
| MarkupProperties.RemoveDropsTag | gst-libs/gst/pbutils/markup-utils.c:196-221 | `&lt;`, a name starting with a letter (after one optional `/`), and `&gt;` are cut out as a whole, and the walk resumes where the tag was |
| MarkupProperties.StripUnique | gst-libs/gst/pbutils/markup-utils.c:232-236 | the stripped text is the only prefix that leaves only newlines behind, is non-empty for non-empty input, and ends in a newline only at length one |
| MarkupProperties.StripIdempotent | gst-libs/gst/pbutils/markup-utils.c:233-236 | stripping twice is stripping once |
| MarkupProperties.LongTagNeverPops | gst-libs/gst/pbutils/markup-utils.c:152-158 | the pop test starts one character before the first `>`, so a top tag of two or more letters never compares equal |
| MarkupProperties.SingleCharPop | gst-libs/gst/pbutils/markup-utils.c:158 | for a one-letter top tag, the pop test compares only the character before `>`, ignoring case |
| MarkupProperties.FixUpNoTag | gst-libs/gst/pbutils/markup-utils.c:111-172 | a text without `<` is defined and comes back unchanged |
| MarkupProperties.FixUpClosesOpenTag | gst-libs/gst/pbutils/markup-utils.c:117-186 | an allowed tag opened at the start and never closed gets its closing tag appended at the end |
| MarkupProperties.MatchOpenPicks | gst-libs/gst/pbutils/markup-utils.c:116-141 | for a tag no earlier alternative shadows and any attribute text the pattern's class accepts (one optional whitespace character, then letters, digits, `.`, space, tab and parentheses, as in `<c.yellow>` or `<v Roger>`), `<`, the tag, the attributes and `>` are recognised as that tag, and the match spans exactly those characters |
| MarkupProperties.OpeningStep | gst-libs/gst/pbutils/markup-utils.c:116-147 | an opening tag of a reachable lower-case tag, with any such attribute text, is pushed by the scan as written and by the corrected one alike, and both go on right after its `>` |
| MarkupProperties.ScanOpensFrom | gst-libs/gst/pbutils/markup-utils.c:110-170 | from any position and stack, a run of such opening tags followed by text with no `<` leaves exactly those tags open, in the order they were opened, on top of the stack the scan had |
| MarkupProperties.IntendedOpensFrom | gst-libs/gst/pbutils/markup-utils.c:110-170 | the corrected scan pushes the same tags in the same order and cuts nothing out of the text |
| MarkupProperties.ScanOpens | gst-libs/gst/pbutils/markup-utils.c:110-170 | for allowed tags with any attribute text opened one after the other and followed by plain text, both scans from the start leave open exactly the opened tags, in order; the corrected scan keeps the text |
| MarkupProperties.FixUpClosesOpens | gst-libs/gst/pbutils/markup-utils.c:110-186 | as written, allowed opening tags followed by plain text are defined and get the closing tag of each opened tag appended, the last opened closed first, so the appended tags close exactly what was left open |
| MarkupProperties.IntendedClosesOpens | gst-libs/gst/pbutils/markup-utils.c:110-186 | the corrected fix-up appends the same closing tags in the same order to the unchanged text |
| MarkupProperties.FixUpNestedExample | gst-libs/gst/pbutils/markup-utils.c:172-186 | `<i><b>` followed by any text with no `<` is closed with `</b></i>`, as written and as corrected |
| MarkupProperties.UnopenedCloseBreaks | gst-libs/gst/pbutils/markup-utils.c:151-161 | as written, a closing tag at the start of the text, with nothing open, reaches the cut-out branch |
| MarkupProperties.NestedCloseBreaks | gst-libs/gst/pbutils/markup-utils.c:151-161 | as written, two different one-letter allowed tags properly nested around plain text reach the cut-out branch at the outer closing tag |
| MarkupProperties.LongCloseBreaks | gst-libs/gst/pbutils/markup-utils.c:151-161 | as written, an allowed tag of two or more letters, opened and closed around plain text, reaches the cut-out branch at its closing tag |
| MarkupProperties.IntendedDropsUnopened | gst-libs/gst/pbutils/markup-utils.c:87-91 | the corrected fix-up cuts out a closing tag that closes nothing, as the function's comment promises |
| MarkupProperties.IntendedNestedUnchanged | gst-libs/gst/pbutils/markup-utils.c:87-91 | the corrected fix-up leaves two allowed tags of any length, properly nested around plain text, unchanged |
| MarkupProperties.ClosersPush | gst-libs/gst/pbutils/markup-utils.c:176-184 | the tag opened last is closed first |
| MarkupProperties.SanitizePlainText | gst-libs/gst/pbutils/markup-utils.c:248-256 | text without `&` and `<` only loses its trailing newlines |

## Left out

- Locking, GObject type and property boilerplate, reference counting and
  freeing: the model has values, not pointers.
- The getters: each reads a field, which the datatype's field selectors
  already give.
- The signal machinery: emitting `changed` is modelled as appending an
  event to the step's list.
- The public-suffix check in `add_cookie`: it is compiled out with `#if 0`.
- GST_LOG and the other logging calls.
- The GRegex engine: each of the two fixed patterns is written out as a
  matcher. This rests on the tags starting with letters and on the
  attribute class containing no `&`, `<` or `>`, so backtracking cannot
  change a match.
- Time zones and `GDateTime`'s year range. HttpCookie.MaxAgeExpiry, used
  by the rest of the model, gives Max-Age 0 the epoch instant, as the
  function's documentation says. The code as written is under Findings.
- CaseKey.Widen: assumes that `char` is signed, as on x86, so bytes
  128-255 are sign-extended. Where `char` is unsigned (ARM Linux, for
  one) they widen to themselves. Buckets are chosen by the lower-cased
  key, not by the hash value, so nothing else depends on this.
- HttpCookie.New: the NULL-domain warning is not modelled. The model just
  returns a cookie with no domain.
- CookieJar.Add: requires a domain. A NULL domain is a NULL hash-table key,
  which `add_cookie` hands to the case hash without a check.
- HttpCookie.Equal: requires both paths to be present whenever name and
  value agree. `strcmp` on a NULL path is undefined.
- CookieJar.DeleteCookie: requires that every `equal` comparison it makes
  is defined, for the same reason.
- CookieJar.AllCookies: states only the multiset of cookies and their
  number, not their order. The bucket order of a GHashTable is
  unspecified. The source prepends, so each bucket's cookies come out
  reversed.
- CookieJar.JarChanged: the serial table is keyed by cookie value. The
  source keys it by pointer (`g_hash_table_new (NULL, NULL)`). The two
  differ when `add_cookie` swaps in a newcomer with the same value
  (JarProperties.SameValueSwapKeepsSerials). No signal fires, so the
  source leaves the displaced pointer's entry behind and gives the
  newcomer none. In the model the table is unchanged, and an entry whose
  key equals the newcomer as a value then stands for it. The table is
  only written, never read, so nothing the jar reports depends on this.
- NULL names and values are not modelled. Those fields are plain strings,
  so the type already gives the precondition that a NULL name must not
  reach the `strcmp` calls in `add_cookie`.
- MarkupUtils.FixUpMarkup: requires that the scan never takes the branch
  that cuts out a closing tag. Its `memmove` copies one byte past the
  terminator. It then rewinds by a length measured on the already-moved
  buffer, so its effect is undefined. As written, that branch is taken
  not only for a closing tag that was never opened. It is also taken for
  the outer closing tag of every pair of two different tags nested one
  in the other (MarkupProperties.NestedCloseBreaks) and for the closing tag of every
  tag of two or more letters, such as WebVTT's `ruby` and `rt`
  (MarkupProperties.LongCloseBreaks). So the as-written model covers
  flat markup whose closing tags are one letter long and match the open
  tag, and nothing else. The corrected MarkupUtils.FixUpIntended (see
  Findings) is defined on every text.
- MarkupUtils.Sanitize: requires the same of the text handed to the
  fix-up pass, so it covers the same flat, one-letter markup.
- MarkupUtils.UnescapeAll: states only the length bound in its own
  contract. The rewrite of each tag is stated by
  MarkupProperties.UnescapeTag. That text with no `&` is kept is stated
  by MarkupProperties.UnescapeKeepsPlain.
- MarkupUtils.RemoveUnhandledTags: states only that the text never grows
  in its own contract. What is cut is stated by
  MarkupProperties.RemoveDropsTag. What is kept is stated by
  MarkupProperties.RemoveKeepsPlain (text with no `&`) and
  MarkupProperties.RemoveKeepsFirst (an `&` that starts no removable tag).
  MarkupProperties.RemoveIsSubsequence states only that nothing is added
  or reordered.
- MarkupUtils.Sanitize: states only that the output starts with the
  cleaned text. The unescaping, removal and stripping passes are stated
  by the lemmas about them. Which closing tags the fix-up pass appends
  is stated only for a run of opening tags followed by plain text
  (MarkupProperties.FixUpClosesOpens). MarkupProperties.SanitizePlainText
  states the effect of all four passes on plain text.
- MarkupUtils.Scan: its own contract states only that every tag left
  open is an allowed tag, not which tags they are. Exactly which tags
  are left open, and in what order, is stated for a run of allowed
  opening tags, with any attribute text, followed by text with no `<`
  (MarkupProperties.ScanOpensFrom, MarkupProperties.ScanOpens). For text
  that also closes tags, only the lemmas on particular layouts (the
  single open tag, the nested pairs) state it.
- MarkupUtils.ScanIntended: the same holds of the corrected scan, through
  MarkupProperties.IntendedOpensFrom and MarkupProperties.ScanOpens.
- MarkupUtils.FixUpMarkup: its own contract states only that it appends
  closing tags of allowed tags. That these close exactly the tags left
  open, the last opened first, is stated by
  MarkupProperties.FixUpClosesOpens for a run of opening tags followed by
  plain text, and not for text that also closes tags.
- MarkupUtils.FixUpIntended: likewise, through
  MarkupProperties.IntendedClosesOpens and the nested-pair lemmas.
- Embedded NUL characters: C strings end at the first NUL, and the model's
  strings do not contain one.

## Findings

| source | as written | input that shows it | evidently intended | confidence | as-written member | corrected member |
|---|---|---|---|---|---|---|
| gst-libs/gst/pbutils/markup-utils.c:151-161 | `end_tag = strchr (cur, '>')` searches from `cur`, not from the `<` at `next_tag`, and the pop test compares from `end_tag - 1`. After a pop, `cur` is one past the previous `<`, so the outer closer of two different nested tags finds the inner closer's `>` and compares the inner tag with the outer one. A tag of two or more letters never compares equal. Each of these reaches the cut-out branch, whose `memmove` and rewind are undefined | `<i><b>x</b></i>` (SubRip), or `<ruby>x</ruby>` (WebVTT) | find the `>` from `next_tag` and compare the name at `next_tag + 2` with the top tag; cut out a closing tag that does not match and resume at the same place, as the comment at lines 87-91 says | not executed | MarkupUtils.ScanStep (MarkupProperties.NestedCloseBreaks, MarkupProperties.LongCloseBreaks, MarkupProperties.UnopenedCloseBreaks) | MarkupUtils.FixUpIntended (MarkupProperties.IntendedNestedUnchanged, MarkupProperties.IntendedDropsUnopened) |
| gst-libs/gst/http/gsthttpcookie.c:322-328 | Max-Age 0 calls `g_date_time_new (NULL, 1970, 1, 1, 0, 0, 0)`. GLib's `g_date_time_new` refuses a NULL time zone and returns NULL, so `expires` ends NULL and the cookie is a session cookie | `gst_http_cookie_set_max_age (c, 0)`: the cookie then never expires, against the documentation at lines 308-309 | `g_date_time_new_utc (1970, 1, 1, 0, 0, 0)`, or `g_date_time_new` with a UTC zone | not executed; rests on GLib's NULL check, and GLib is not part of this model | HttpCookie.MaxAgeExpiryAsWritten (JarProperties.MaxAgeZeroAsWrittenNeverExpires) | HttpCookie.MaxAgeExpiry (JarProperties.MaxAgeAndPast) |
| gst-libs/gst/http/gsthttpcookiejar.c:410-413 | `if (check_start_operation (jar)) return;`: on an idle jar, starting the operation succeeds and the function returns with the flag left raised. From then on every `add_cookie` is turned away, and only a second `delete_cookie` deletes | an idle jar holding a cookie c, then `delete_cookie(c)`: c is still stored, no signal fires, and the jar refuses further adds | `if (!check_start_operation (jar)) return;`, the guard `add_cookie` uses at line 283 | not executed | CookieJar.DeleteCookie (JarProperties.DeleteGuardInverted, JarProperties.IdleDeleteBlocksAdd) | CookieJar.DeleteIntended (JarProperties.DeleteIntendedPreservesValid) |
