/**
  The case-insensitive string hash and equality the cookie jar uses for its
  domain table (gst_http_str_case_hash, gst_http_str_case_equal). Strings
  are C strings: a `char` stands for one byte, and the terminating NUL is
  the end of the sequence (or an earlier '\0', which the C loops stop at).
 */
module CaseKey {
  import opened Ascii

  const Two32: int := 0x1_0000_0000

  /** An unsigned 32-bit integer (guint). */
  type U32 = x: int | 0 <= x < Two32

  /** A C string: every character is a non-zero byte (no NUL before the terminator). */
  predicate NoNul(s: string) {
    forall i :: 0 <= i < |s| ==> 0 < s[i] as int < 256
  }

  /** The byte `*p` reads, with the terminator read past the end. */
  function Head(s: string): char {
    if |s| == 0 then '\0' else s[0]
  }

  /**
    A gchar widened to guint: bytes 128..255 are negative chars and are
    sign-extended, so they land at the top of the 32-bit range.
   */
  function Widen(c: char): (r: U32)
    ensures c as int < 128 ==> r == c as int
  {
    if c as int < 128 then c as int else (c as int - 256 + Two32) % Two32
  }

  /**
    Reference definition of the hash: h("") = 0 and
    h(s + [c]) = 31 * h(s) + toupper(c), computed modulo 2^32.
   */
  function HashSpec(s: string): U32
  {
    if |s| == 0 then 0
    else (31 * HashSpec(s[..|s| - 1]) + Widen(ToUpper(s[|s| - 1]))) % Two32
  }

  /** `(h << 5) - h + c` on guint is `31 * h + c` modulo 2^32. */
  lemma ShiftSubIsTimes31(h: U32, w: U32)
    ensures ((h * 32) % Two32 - h + w) % Two32 == (31 * h + w) % Two32
  {
    var q := (h * 32) / Two32;
    assert h * 32 == q * Two32 + (h * 32) % Two32;
    assert (h * 32) % Two32 - h + w == (31 * h + w) - q * Two32;
    ModShift(31 * h + w, q);
  }

  lemma ModShift(x: int, q: int)
    ensures (x - q * Two32) % Two32 == x % Two32
  {
  }

  /**
    gst_http_str_case_hash, step by step as the C loop runs: the first byte
    seeds the hash, and only a non-zero seed starts the loop over the rest.
   */
  method StrCaseHash(s: string) returns (h: U32)
    ensures NoNul(s) ==> h == HashSpec(s)
    ensures |s| == 0 ==> h == 0
  {
    h := Widen(ToUpper(Head(s)));
    if h != 0 {
      assert s[..1] == [s[0]];
      var i := 1;
      while i < |s| && s[i] != '\0'
        invariant 1 <= i <= |s|
        invariant NoNul(s) ==> h == HashSpec(s[..i])
      {
        ShiftSubIsTimes31(h, Widen(ToUpper(s[i])));
        assert s[..i + 1][..i] == s[..i];
        h := ((h * 32) % Two32 - h + Widen(ToUpper(s[i]))) % Two32;
        i := i + 1;
      }
      assert NoNul(s) ==> i == |s| && s[..i] == s;
    }
  }

  /**
    g_ascii_strcasecmp: compares lower-cased bytes until one string ends or
    two bytes differ; the result is 0 exactly for a case-insensitive match.
   */
  function StrCaseCmp(a: string, b: string): int
    decreases |a|
  {
    if Head(a) == '\0' || Head(b) == '\0' then Head(a) as int - Head(b) as int
    else if ToLower(a[0]) != ToLower(b[0]) then ToLower(a[0]) as int - ToLower(b[0]) as int
    else StrCaseCmp(a[1..], b[1..])
  }

  /** gst_http_str_case_equal. */
  predicate StrCaseEqual(a: string, b: string) {
    StrCaseCmp(a, b) == 0
  }

  /** The key under which the model files a domain: its ASCII lower-case form. */
  function Key(domain: string): (k: string)
    ensures |k| == |domain|
  {
    LowerString(domain)
  }

  /**
    Two C strings are equal for the domain table exactly when their keys
    are equal, so "Example.COM" and "example.com" share one bucket.
   */
  lemma {:induction false} CaseEqualIffSameKey(a: string, b: string)
    requires NoNul(a) && NoNul(b)
    ensures StrCaseEqual(a, b) <==> Key(a) == Key(b)
    decreases |a|
  {
    if |a| == 0 || |b| == 0 {
      if |a| != |b| {
        assert |Key(a)| != |Key(b)|;
      }
    } else if ToLower(a[0]) != ToLower(b[0]) {
      assert Key(a)[0] != Key(b)[0];
    } else {
      CaseEqualIffSameKey(a[1..], b[1..]);
      assert Key(a) == [ToLower(a[0])] + Key(a[1..]);
      assert Key(b) == [ToLower(b[0])] + Key(b[1..]);
    }
  }

  /**
    Strings with the same key hash alike, so the hash is compatible with
    the equality the table uses (a requirement of GHashTable).
   */
  lemma {:induction false} SameKeySameHash(a: string, b: string)
    requires Key(a) == Key(b)
    ensures HashSpec(a) == HashSpec(b)
    decreases |a|
  {
    if |a| > 0 {
      var n := |a| - 1;
      assert Key(a[..n]) == Key(a)[..n] && Key(b[..n]) == Key(b)[..n];
      SameKeySameHash(a[..n], b[..n]);
      assert Key(a)[n] == Key(b)[n];
      SameLowerSameUpper(a[n], b[n]);
      HashStep(a, b);
    }
  }

  /** Two strings whose prefixes hash alike and whose last characters upper-case alike hash alike. */
  lemma HashStep(a: string, b: string)
    requires |a| == |b| > 0
    requires HashSpec(a[..|a| - 1]) == HashSpec(b[..|b| - 1])
    requires ToUpper(a[|a| - 1]) == ToUpper(b[|b| - 1])
    ensures HashSpec(a) == HashSpec(b)
  {
  }

  /** The table's equality implies equal hashes. */
  lemma CaseEqualSameHash(a: string, b: string)
    requires NoNul(a) && NoNul(b)
    requires StrCaseEqual(a, b)
    ensures HashSpec(a) == HashSpec(b)
  {
    CaseEqualIffSameKey(a, b);
    SameKeySameHash(a, b);
  }
}
