/**
  The cookie jar (GstHttpCookieJar): a table from a case-insensitive
  domain key to an ordered bucket of cookies, a serial table giving every
  cookie a recency number, and the `ongoing_operation` flag that turns
  away a mutation started while another one is in flight. Every operation
  takes a jar and returns the next jar together with the `changed` signals
  it emitted; the current time is a parameter.
 */
module CookieJar {
  import opened Wrappers
  import opened HttpCookie
  import opened CaseKey

  /** The opaque author pointer handed through to signal subscribers. */
  type Author = nat

  /** One emission of the "changed" signal. */
  datatype Event = Changed(author: Author, oldCookie: Option<Cookie>, newCookie: Option<Cookie>)

  /**
    The jar's private state. `domains` maps `Key(domain)` to its bucket
    (a bucket emptied by a removal stays, as an empty list); `serials`
    maps a stored cookie to its recency number; `serial` is the guint
    counter; `constructed` gates signal emission.
   */
  datatype Jar = Jar(
    domains: map<string, seq<Cookie>>,
    serials: map<Cookie, U32>,
    serial: U32,
    ongoing: bool,
    constructed: bool)

  /** The result of an operation: the next jar and the signals emitted, in order. */
  datatype Step = Step(jar: Jar, events: seq<Event>)

  /** gst_http_cookie_jar_init: empty tables, counter at zero, not yet constructed. */
  function Init(): (j: Jar)
    ensures j.domains == map[] && j.serials == map[] && j.serial == 0
    ensures !j.ongoing && !j.constructed
  {
    Jar(map[], map[], 0, false, false)
  }

  /** gst_http_cookie_jar_constructed: from here on, changes are signalled. */
  function Constructed(j: Jar): (r: Jar)
    ensures r.constructed
    ensures r.domains == j.domains && r.serials == j.serials && r.serial == j.serial && r.ongoing == j.ongoing
  {
    j.(constructed := true)
  }

  /**
    gst_http_cookie_jar_check_start_operation: fails when an operation is
    in flight; otherwise succeeds and raises the flag.
   */
  function CheckStartOperation(j: Jar): (r: (bool, Jar))
    ensures r.0 <==> !j.ongoing
    ensures r.1.ongoing
    ensures r.1.(ongoing := j.ongoing) == j
  {
    if j.ongoing then (false, j) else (true, j.(ongoing := true))
  }

  /**
    gst_http_cookie_jar_finish_operation: lowers the flag (when it is not
    raised, the C code only warns, and the flag stays lowered).
   */
  function FinishOperation(j: Jar): (r: Jar)
    ensures !r.ongoing
    ensures r.(ongoing := j.ongoing) == j
  {
    j.(ongoing := false)
  }

  /** The signal a change emits: one event once the jar is constructed, none before. */
  function Notify(j: Jar, author: Author, before: Option<Cookie>, after: Option<Cookie>): (es: seq<Event>)
    ensures j.constructed ==> es == [Changed(author, before, after)]
    ensures !j.constructed ==> es == []
  {
    if j.constructed then [Changed(author, before, after)] else []
  }

  /** The guint counter after `serial++` (it wraps). */
  function NextSerial(s: U32): (r: U32)
    ensures s < Two32 - 1 ==> r == s + 1
    ensures s == Two32 - 1 ==> r == 0
  {
    (s + 1) % Two32
  }

  /**
    gst_http_cookie_jar_changed: forgets the serial of `old` when it differs
    from `new`, gives `new` the next serial, and emits the signal when the
    jar is constructed. The domain table and the flags are untouched.
   */
  function JarChanged(j: Jar, author: Author, before: Option<Cookie>, after: Option<Cookie>): (r: Step)
    ensures r.jar.domains == j.domains && r.jar.ongoing == j.ongoing && r.jar.constructed == j.constructed
    ensures after.Some? ==>
      r.jar.serial == NextSerial(j.serial) && after.value in r.jar.serials && r.jar.serials[after.value] == r.jar.serial
    ensures after.None? ==> r.jar.serial == j.serial
    ensures before.Some? && before != after ==> before.value !in r.jar.serials
    ensures forall c :: Some(c) != before && Some(c) != after ==>
              (c in r.jar.serials <==> c in j.serials) &&
              (c in j.serials ==> r.jar.serials[c] == j.serials[c])
    ensures r.events == Notify(j, author, before, after)
  {
    var serials := if before.Some? && before != after then j.serials - {before.value} else j.serials;
    var j' := if after.Some? then
                var s := NextSerial(j.serial);
                j.(serials := serials[after.value := s], serial := s)
              else j.(serials := serials);
    Step(j', Notify(j, author, before, after))
  }

  /**
    date_time_is_past: `now - dt > 0`, the difference taken strictly, so a
    cookie expiring exactly now is not yet past.
   */
  predicate DateTimeIsPast(dt: Instant, now: Instant) {
    now - dt > 0
  }

  /** The test `add` applies: the cookie has an expiry and it lies in the past. */
  predicate IsPast(c: Cookie, now: Instant) {
    c.expires.Some? && DateTimeIsPast(c.expires.value, now)
  }

  /**
    Two cookies occupy the same slot of a bucket: same name (`strcmp`) and
    same path, compared NULL-safely (`g_strcmp0`).
   */
  predicate SameSlot(a: Cookie, b: Cookie) {
    a.name == b.name && a.path == b.path
  }

  /** The bucket of `key` in a table; a missing entry reads as an empty list (a NULL GSList). */
  function Lookup(m: map<string, seq<Cookie>>, key: string): seq<Cookie> {
    if key in m then m[key] else []
  }

  /** The jar's bucket for `key`. */
  function Bucket(j: Jar, key: string): seq<Cookie> {
    Lookup(j.domains, key)
  }

  /** The bucket key of a cookie's domain. */
  function KeyOf(c: Cookie): string
    requires c.domain.Some?
  {
    Key(c.domain.value)
  }

  /** The list with element `i` unlinked (g_slist_delete_link). */
  function RemoveAt(b: seq<Cookie>, i: nat): (r: seq<Cookie>)
    requires i < |b|
    ensures |r| == |b| - 1
    ensures forall k :: 0 <= k < i ==> r[k] == b[k]
    ensures forall k :: i <= k < |r| ==> r[k] == b[k + 1]
  {
    b[..i] + b[i + 1..]
  }

  /** The index of the first cookie of `b`, from `from` on, in the same slot as `c`. */
  function FindSlot(b: seq<Cookie>, c: Cookie, from: nat := 0): (r: Option<nat>)
    requires from <= |b|
    ensures r.Some? ==> from <= r.value < |b| && SameSlot(c, b[r.value])
    ensures r.Some? ==> forall k :: from <= k < r.value ==> !SameSlot(c, b[k])
    ensures r.None? ==> forall k :: from <= k < |b| ==> !SameSlot(c, b[k])
    decreases |b| - from
  {
    if from == |b| then None
    else if SameSlot(c, b[from]) then Some(from)
    else FindSlot(b, c, from + 1)
  }

  /**
    gst_http_cookie_jar_add_cookie. Rejected outright while an operation is
    in flight. Otherwise it looks for a cookie in the same slot of the
    domain's bucket and takes one of four paths:
    - found, incoming already past: the stored cookie is unlinked and
      `changed(old, None)` fires;
    - found, incoming live: the incoming cookie takes the stored one's
      place, and `changed(old, new)` fires only if the values differ;
    - not found, incoming already past: it is dropped silently;
    - not found, incoming live: it is appended and `changed(None, new)` fires.
    Every started call lowers the flag before returning.
   */
  function Add(j: Jar, author: Author, c: Cookie, now: Instant): (r: Step)
    requires c.domain.Some?
    ensures j.ongoing ==> r == Step(j, [])
    ensures !j.ongoing ==> !r.jar.ongoing
    ensures r.jar.constructed == j.constructed
    ensures !j.ongoing ==>
      var key := KeyOf(c);
      var b := Bucket(j, key);
      match FindSlot(b, c)
      case None =>
        if IsPast(c, now) then r == Step(j, [])
        else
          && r.jar.domains == j.domains[key := b + [c]]
          && r.events == Notify(j, author, None, Some(c))
          && r.jar.serial == NextSerial(j.serial)
          && r.jar.serials == j.serials[c := r.jar.serial]
      case Some(i) =>
        if IsPast(c, now) then
          && r.jar.domains == j.domains[key := RemoveAt(b, i)]
          && r.events == Notify(j, author, Some(b[i]), None)
          && r.jar.serial == j.serial
          && r.jar.serials == j.serials - {b[i]}
        else
          && r.jar.domains == j.domains[key := b[i := c]]
          && (b[i].value != c.value ==>
                && r.events == Notify(j, author, Some(b[i]), Some(c))
                && r.jar.serial == NextSerial(j.serial)
                && r.jar.serials == (j.serials - {b[i]})[c := r.jar.serial])
          && (b[i].value == c.value ==>
                r.events == [] && r.jar.serials == j.serials && r.jar.serial == j.serial)
  {
    var (started, j1) := CheckStartOperation(j);
    if !started then Step(j, [])
    else
      var key := KeyOf(c);
      var b := Bucket(j1, key);
      match FindSlot(b, c)
      case Some(i) =>
        if IsPast(c, now) then
          var st := JarChanged(j1.(domains := j1.domains[key := RemoveAt(b, i)]), author, Some(b[i]), None);
          Step(FinishOperation(st.jar), st.events)
        else
          var j2 := j1.(domains := j1.domains[key := b[i := c]]);
          if c.value != b[i].value then
            var st := JarChanged(j2, author, Some(b[i]), Some(c));
            Step(FinishOperation(st.jar), st.events)
          else
            Step(FinishOperation(j2), [])
      case None =>
        if IsPast(c, now) then Step(FinishOperation(j1), [])
        else
          var st := JarChanged(j1.(domains := j1.domains[key := b + [c]]), author, None, Some(c));
          Step(FinishOperation(st.jar), st.events)
  }

  /**
    The comparisons a scan of `b` for `c` makes with `Equal` are all
    defined: the scan stops at the first equal cookie.
   */
  predicate ScanDefined(c: Cookie, b: seq<Cookie>)
    decreases |b|
  {
    |b| == 0 || (EqualDefined(c, b[0]) && (Equal(c, b[0]) || ScanDefined(c, b[1..])))
  }

  /** The index of the first cookie of `b`, from `from` on, that `Equal` matches with `c`. */
  function FindEqual(b: seq<Cookie>, c: Cookie, from: nat := 0): (r: Option<nat>)
    requires from <= |b| && ScanDefined(c, b[from..])
    ensures r.Some? ==> from <= r.value < |b| && EqualDefined(c, b[r.value]) && Equal(c, b[r.value])
    ensures r.Some? ==> forall k :: from <= k < r.value ==> EqualDefined(c, b[k]) && !Equal(c, b[k])
    ensures r.None? ==> forall k :: from <= k < |b| ==> EqualDefined(c, b[k]) && !Equal(c, b[k])
    decreases |b| - from
  {
    if from == |b| then None
    else if Equal(c, b[from]) then Some(from)
    else
      assert b[from..][1..] == b[from + 1..];
      FindEqual(b, c, from + 1)
  }

  /** What `delete` may ask of its argument once it scans: a domain, and defined comparisons. */
  predicate DeleteDefined(j: Jar, c: Cookie) {
    c.domain.Some? && ScanDefined(c, Bucket(j, KeyOf(c)))
  }

  /**
    The body of `delete` past its guard: unlinks the first cookie of the
    domain's bucket that is `Equal` to `c`, fires `changed(found, None)`,
    and lowers the flag; a miss only lowers the flag.
   */
  function DeleteLocked(j: Jar, author: Author, c: Cookie): (r: Step)
    requires DeleteDefined(j, c)
    ensures !r.jar.ongoing && r.jar.constructed == j.constructed
    ensures var key := KeyOf(c);
      var b := Bucket(j, key);
      match FindEqual(b, c)
      case None => r == Step(FinishOperation(j), [])
      case Some(i) =>
        && r.jar.domains == j.domains[key := RemoveAt(b, i)]
        && r.events == Notify(j, author, Some(b[i]), None)
        && r.jar.serial == j.serial
        && r.jar.serials == j.serials - {b[i]}
  {
    var key := KeyOf(c);
    var b := Bucket(j, key);
    if |b| == 0 then Step(FinishOperation(j), [])
    else
      match FindEqual(b, c)
      case None => Step(FinishOperation(j), [])
      case Some(i) =>
        var st := JarChanged(j.(domains := j.domains[key := RemoveAt(b, i)]), author, Some(b[i]), None);
        Step(FinishOperation(st.jar), st.events)
  }

  /**
    gst_http_cookie_jar_delete_cookie as written. Its guard is inverted:
    when no operation is in flight, starting one succeeds and the call
    returns at once with the flag left raised; only when an operation is
    already in flight does it go on to delete, and then it lowers the flag.
   */
  function DeleteCookie(j: Jar, author: Author, c: Cookie): (r: Step)
    requires j.ongoing ==> DeleteDefined(j, c)
    ensures !j.ongoing ==> r == Step(j.(ongoing := true), [])
    ensures j.ongoing ==> r == DeleteLocked(j, author, c)
  {
    var (started, j1) := CheckStartOperation(j);
    if started then Step(j1, [])
    else DeleteLocked(j, author, c)
  }

  /**
    `delete` with the guard the way `add` has it: turned away while an
    operation is in flight, otherwise the deletion proper.
   */
  function DeleteIntended(j: Jar, author: Author, c: Cookie): (r: Step)
    requires !j.ongoing ==> DeleteDefined(j, c)
    ensures j.ongoing ==> r == Step(j, [])
    ensures !j.ongoing ==> r == DeleteLocked(j.(ongoing := true), author, c)
  {
    var (started, j1) := CheckStartOperation(j);
    if !started then Step(j, [])
    else DeleteLocked(j1, author, c)
  }

  /** No two cookies of a bucket occupy the same (name, path) slot. */
  predicate SlotsDistinct(b: seq<Cookie>) {
    forall p, q :: 0 <= p < q < |b| ==> !SameSlot(b[p], b[q])
  }

  /**
    The jar's representation invariant: every stored cookie has a domain
    and sits in the bucket of that domain's key, and slots are unique
    within a bucket.
   */
  predicate Valid(j: Jar) {
    && (forall k, x :: k in j.domains && x in j.domains[k] ==> x.domain.Some? && KeyOf(x) == k)
    && (forall k :: k in j.domains ==> SlotsDistinct(j.domains[k]))
  }

  /** Every cookie stored in the table, with multiplicity. */
  ghost function Contents(m: map<string, seq<Cookie>>): multiset<Cookie>
    decreases |m|
  {
    if |m| == 0 then multiset{}
    else
      var k :| k in m;
      multiset(m[k]) + Contents(m - {k})
  }

  /** `Contents` does not depend on which key it takes apart first. */
  lemma {:induction false} ContentsPick(m: map<string, seq<Cookie>>, k: string)
    requires k in m
    ensures Contents(m) == multiset(m[k]) + Contents(m - {k})
    decreases |m|
  {
    var k' :| k' in m && Contents(m) == multiset(m[k']) + Contents(m - {k'});
    if k' != k {
      var m1 := m - {k'};
      var m2 := m - {k};
      ContentsPick(m1, k);
      ContentsPick(m2, k');
      RemoveBoth(m, k, k');
      SwapFirst(Contents(m), Contents(m1), Contents(m2), Contents(m1 - {k}), multiset(m[k']), multiset(m[k]));
    }
  }

  /** Removing two keys in either order gives the same table, and each keeps the other's bucket. */
  lemma RemoveBoth(m: map<string, seq<Cookie>>, k: string, k': string)
    requires k in m && k' in m && k != k'
    ensures (m - {k'}) - {k} == (m - {k}) - {k'}
    ensures (m - {k'})[k] == m[k] && (m - {k})[k'] == m[k']
  {
    assert (m - {k'}) - {k} == m - {k, k'};
    assert (m - {k}) - {k'} == m - {k, k'};
  }

  /** Taking apart `x` then `y`, or `y` then `x`, leaves the same rest. */
  lemma SwapFirst(whole: multiset<Cookie>, withoutX: multiset<Cookie>, withoutY: multiset<Cookie>, rest: multiset<Cookie>,
                  x: multiset<Cookie>, y: multiset<Cookie>)
    requires whole == x + withoutX && withoutX == y + rest && withoutY == x + rest
    ensures whole == y + withoutY
  {
  }

  /** Replacing one bucket changes the contents by exactly that bucket. */
  lemma ContentsUpdate(m: map<string, seq<Cookie>>, k: string, b: seq<Cookie>)
    ensures Contents(m[k := b]) + multiset(Lookup(m, k)) == Contents(m) + multiset(b)
  {
    if k in m {
      ContentsReplaceBucket(m, k, b);
    } else {
      ContentsNewBucket(m, k, b);
    }
  }

  /** ContentsUpdate for a key the table already has. */
  lemma ContentsReplaceBucket(m: map<string, seq<Cookie>>, k: string, b: seq<Cookie>)
    requires k in m
    ensures Contents(m[k := b]) + multiset(m[k]) == Contents(m) + multiset(b)
  {
    var mk := m[k := b];
    UpdateThenRemove(m, k, b);
    ContentsPick(mk, k);
    ContentsPick(m, k);
    SwapBucket(Contents(mk), Contents(m), Contents(m - {k}), multiset(m[k]), multiset(b));
  }

  /** Setting a key and then removing it leaves the table without that key. */
  lemma UpdateThenRemove(m: map<string, seq<Cookie>>, k: string, b: seq<Cookie>)
    ensures m[k := b][k] == b && m[k := b] - {k} == m - {k}
  {
  }

  /** Two tables that share all but one bucket differ in contents by those two buckets. */
  lemma SwapBucket(updated: multiset<Cookie>, whole: multiset<Cookie>, rest: multiset<Cookie>,
                   dropped: multiset<Cookie>, added: multiset<Cookie>)
    requires updated == added + rest && whole == dropped + rest
    ensures updated + dropped == whole + added
  {
  }

  /** ContentsUpdate for a key the table does not have yet. */
  lemma ContentsNewBucket(m: map<string, seq<Cookie>>, k: string, b: seq<Cookie>)
    requires k !in m
    ensures Contents(m[k := b]) == Contents(m) + multiset(b)
  {
    var mk := m[k := b];
    UpdateThenRemove(m, k, b);
    assert m - {k} == m;
    ContentsPick(mk, k);
  }

  /** Prepends a copy of each cookie of `b` to `l`, one at a time, as the C loop does. */
  method PrependCopies(b: seq<Cookie>, l: seq<Cookie>) returns (r: seq<Cookie>)
    ensures multiset(r) == multiset(l) + multiset(b)
    ensures |r| == |l| + |b|
  {
    r := l;
    var i := 0;
    while i < |b|
      invariant 0 <= i <= |b|
      invariant multiset(r) == multiset(l) + multiset(b[..i])
      invariant |r| == |l| + i
    {
      assert b[..i + 1] == b[..i] + [b[i]];
      r := [Copy(b[i])] + r;
      i := i + 1;
    }
    assert b[..i] == b;
  }

  /**
    gst_http_cookie_jar_all_cookies: a copy of every stored cookie. The
    table is walked in its own (unspecified) order and each copy is
    prepended, so the result holds exactly the stored cookies, with
    multiplicity; the jar itself is not touched.
   */
  method AllCookies(j: Jar) returns (l: seq<Cookie>)
    ensures multiset(l) == Contents(j.domains)
    ensures |l| == |Contents(j.domains)|
  {
    l := [];
    var rest := j.domains;
    while |rest| > 0
      invariant multiset(l) + Contents(rest) == Contents(j.domains)
      decreases |rest|
    {
      var k :| k in rest;
      ContentsPick(rest, k);
      l := PrependCopies(rest[k], l);
      rest := rest - {k};
    }
    assert Contents(rest) == multiset{};
  }
}
