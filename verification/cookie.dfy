/**
  The HTTP cookie value type (GstHttpCookie, after RFC 6265): seven
  fields, a constructor, a copy, per-field setters, the Max-Age rule of
  section 5.2.2 of RFC 6265, and the deliberately weak equality.
 */
module HttpCookie {
  import opened Wrappers

  /** An instant, in microseconds since 1970-01-01T00:00:00Z (GDateTime's resolution). */
  type Instant = int

  const UsecPerSecond: int := 1_000_000

  /** 1970-01-01T00:00:00Z, the instant set_max_age (0) stores. */
  const Epoch: Instant := 0

  /** A C `int`. */
  type Int32 = x: int | -0x8000_0000 <= x < 0x8000_0000

  /**
    An HTTP cookie. `name` and `value` are always set; a missing `domain`,
    `path` or `expires` is `None` (a NULL pointer); `expires == None` makes
    a session cookie.
   */
  datatype Cookie = Cookie(
    name: string,
    value: string,
    domain: Option<string>,
    path: Option<string>,
    expires: Option<Instant>,
    secure: bool,
    httpOnly: bool)

  /** The fields of a cookie, for stating what a setter leaves alone. */
  datatype Field = Name | Value | Domain | Path | Expires | Secure | HttpOnly

  /** `a` and `b` agree on every field except possibly `f`. */
  predicate AgreeExcept(a: Cookie, b: Cookie, f: Field) {
    && (f == Name || a.name == b.name)
    && (f == Value || a.value == b.value)
    && (f == Domain || a.domain == b.domain)
    && (f == Path || a.path == b.path)
    && (f == Expires || a.expires == b.expires)
    && (f == Secure || a.secure == b.secure)
    && (f == HttpOnly || a.httpOnly == b.httpOnly)
  }

  /**
    The expiry a Max-Age of `maxAge` seconds gives at instant `now`:
    -1 means a session cookie, 0 the fixed epoch instant (proof against
    clock skew), anything else `now` plus that many seconds.
   */
  function MaxAgeExpiry(maxAge: Int32, now: Instant): (r: Option<Instant>)
    ensures r.None? <==> maxAge == -1
    ensures maxAge == 0 ==> r == Some(Epoch)
    ensures maxAge != -1 && maxAge != 0 ==> r.Some? && r.value - now == maxAge * UsecPerSecond
  {
    if maxAge == -1 then None
    else if maxAge == 0 then Some(Epoch)
    else Some(now + maxAge * UsecPerSecond)
  }

  /**
    The Max-Age rule as the code is written. For Max-Age 0 it hands
    `g_date_time_new` a NULL time zone; GLib's `g_date_time_new` refuses a
    NULL zone and returns NULL, so the cookie is left with no expiry, a
    session cookie, rather than one expired since the epoch. Every other
    Max-Age is handled as MaxAgeExpiry handles it. GLib is not part of this
    model; MaxAgeExpiry is the rule the rest of the model uses.
   */
  function MaxAgeExpiryAsWritten(maxAge: Int32, now: Instant): (r: Option<Instant>)
    ensures maxAge == 0 ==> r.None?
    ensures maxAge != 0 ==> r == MaxAgeExpiry(maxAge, now)
  {
    if maxAge == -1 then None
    else if maxAge == 0 then None
    else Some(now + maxAge * UsecPerSecond)
  }

  /** gst_http_cookie_set_max_age: replaces the expiry and nothing else. */
  function SetMaxAge(c: Cookie, maxAge: Int32, now: Instant): (r: Cookie)
    ensures AgreeExcept(c, r, Expires)
    ensures r.expires == MaxAgeExpiry(maxAge, now)
  {
    c.(expires := MaxAgeExpiry(maxAge, now))
  }

  /**
    gst_http_cookie_new: NULL (None) when the name or the value is missing;
    otherwise a cookie holding the arguments, with the expiry the Max-Age
    rule gives and both flags off. A missing domain is only warned about.
   */
  function New(name: Option<string>, value: Option<string>, domain: Option<string>,
               path: Option<string>, maxAge: Int32, now: Instant): (r: Option<Cookie>)
    ensures r.None? <==> name.None? || value.None?
    ensures r.Some? ==>
      && r.value.name == name.value
      && r.value.value == value.value
      && r.value.domain == domain
      && r.value.path == path
      && r.value.expires == MaxAgeExpiry(maxAge, now)
      && !r.value.secure && !r.value.httpOnly
  {
    if name.None? || value.None? then None
    else Some(NewInternal(name.value, value.value, domain, path, maxAge, now))
  }

  /** cookie_new_internal: a zeroed cookie filled in, then set_max_age. */
  function NewInternal(name: string, value: string, domain: Option<string>,
                       path: Option<string>, maxAge: Int32, now: Instant): Cookie
  {
    var zeroed := Cookie(name, value, domain, path, None, false, false);
    SetMaxAge(zeroed, maxAge, now)
  }

  /** gst_http_cookie_copy: a cookie with all seven fields of the source. */
  function Copy(c: Cookie): (r: Cookie)
    ensures r == c
  {
    Cookie(c.name, c.value, c.domain, c.path, c.expires, c.secure, c.httpOnly)
  }

  function SetName(c: Cookie, name: string): (r: Cookie)
    ensures r.name == name && AgreeExcept(c, r, Name)
  {
    c.(name := name)
  }

  function SetValue(c: Cookie, value: string): (r: Cookie)
    ensures r.value == value && AgreeExcept(c, r, Value)
  {
    c.(value := value)
  }

  function SetDomain(c: Cookie, domain: Option<string>): (r: Cookie)
    ensures r.domain == domain && AgreeExcept(c, r, Domain)
  {
    c.(domain := domain)
  }

  function SetPath(c: Cookie, path: Option<string>): (r: Cookie)
    ensures r.path == path && AgreeExcept(c, r, Path)
  {
    c.(path := path)
  }

  /** gst_http_cookie_set_expires: None makes a session cookie, Some(t) stores t. */
  function SetExpires(c: Cookie, expires: Option<Instant>): (r: Cookie)
    ensures expires.None? ==> r.expires.None?
    ensures expires.Some? ==> r.expires == Some(expires.value)
    ensures AgreeExcept(c, r, Expires)
  {
    if expires.Some? then c.(expires := Some(expires.value)) else c.(expires := None)
  }

  function SetSecure(c: Cookie, secure: bool): (r: Cookie)
    ensures r.secure == secure && AgreeExcept(c, r, Secure)
  {
    c.(secure := secure)
  }

  function SetHttpOnly(c: Cookie, httpOnly: bool): (r: Cookie)
    ensures r.httpOnly == httpOnly && AgreeExcept(c, r, HttpOnly)
  {
    c.(httpOnly := httpOnly)
  }

  /**
    The comparison `Equal` makes is defined: names and values go through
    `strcmp` first, and the paths are handed to `strcmp` (undefined on
    NULL) only when both of those match.
   */
  predicate EqualDefined(a: Cookie, b: Cookie) {
    a.name != b.name || a.value != b.value || (a.path.Some? && b.path.Some?)
  }

  /**
    gst_http_cookie_equal: the same name, value and path. The domain, the
    expiry and the flags are not compared.
   */
  function Equal(a: Cookie, b: Cookie): (r: bool)
    requires EqualDefined(a, b)
    ensures r <==> (a.name, a.value, a.path) == (b.name, b.value, b.path)
  {
    a.name == b.name && a.value == b.value && a.path.value == b.path.value
  }

  /** A copy equals its source (both paths must be set, as `strcmp` needs). */
  lemma CopyIsEqual(c: Cookie)
    requires c.path.Some?
    ensures EqualDefined(Copy(c), c) && Equal(Copy(c), c)
  {
  }

  lemma EqualReflexive(c: Cookie)
    requires c.path.Some?
    ensures Equal(c, c)
  {
  }

  lemma EqualSymmetric(a: Cookie, b: Cookie)
    requires EqualDefined(a, b)
    ensures EqualDefined(b, a) && Equal(a, b) == Equal(b, a)
  {
  }

  lemma EqualTransitive(a: Cookie, b: Cookie, c: Cookie)
    requires EqualDefined(a, b) && EqualDefined(b, c) && EqualDefined(a, c)
    requires Equal(a, b) && Equal(b, c)
    ensures Equal(a, c)
  {
  }

  /**
    Equality ignores everything but name, value and path: changing the
    domain, the expiry or either flag of one side does not change the
    verdict, so cookies for different domains can compare equal.
   */
  lemma EqualIgnoresOtherFields(a: Cookie, b: Cookie, domain: Option<string>,
                                expires: Option<Instant>, secure: bool, httpOnly: bool)
    requires EqualDefined(a, b)
    ensures var b' := SetHttpOnly(SetSecure(SetExpires(SetDomain(b, domain), expires), secure), httpOnly);
      EqualDefined(a, b') && Equal(a, b') == Equal(a, b)
  {
  }
}
