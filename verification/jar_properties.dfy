/**
  Properties that relate several jar operations: the representation
  invariant they keep, how they change the stored multiset, the
  consequences of delete's inverted guard, and how expiries made by the
  Max-Age rule read to the jar's "past" test.
 */
module JarProperties {
  import opened Wrappers
  import opened HttpCookie
  import opened CaseKey
  import opened CookieJar

  /** A new jar is valid and holds nothing, before and after construction. */
  lemma InitValid()
    ensures Valid(Init()) && Valid(Constructed(Init()))
    ensures Contents(Init().domains) == multiset{}
  {
  }

  /** Removing an element keeps the slots of a bucket distinct. */
  lemma RemoveAtKeepsDistinct(b: seq<Cookie>, i: nat)
    requires i < |b| && SlotsDistinct(b)
    ensures SlotsDistinct(RemoveAt(b, i))
  {
    var r := RemoveAt(b, i);
    forall p, q | 0 <= p < q < |r|
      ensures !SameSlot(r[p], r[q])
    {
      var p' := if p < i then p else p + 1;
      var q' := if q < i then q else q + 1;
      assert r[p] == b[p'] && r[q] == b[q'] && p' < q';
    }
  }

  /** Every cookie of a bucket, in the bucket's key. */
  predicate BucketHomed(b: seq<Cookie>, key: string) {
    forall x :: x in b ==> x.domain.Some? && KeyOf(x) == key
  }

  /**
    `add` keeps the invariant: the incoming cookie lands in its own
    domain's bucket, and it only ever takes a free slot or the one slot it
    matches, so no bucket gains a second cookie for a (name, path) pair.
   */
  lemma AddPreservesValid(j: Jar, author: Author, c: Cookie, now: Instant)
    requires Valid(j) && c.domain.Some?
    ensures Valid(Add(j, author, c, now).jar)
  {
    var r := Add(j, author, c, now).jar;
    if !j.ongoing {
      var key := KeyOf(c);
      var b := Bucket(j, key);
      ValidBucket(j, key);
      match FindSlot(b, c)
      case None =>
        if !IsPast(c, now) {
          AppendKeepsBucket(b, c, key);
          UpdateKeepsValid(j, r, key, b + [c]);
        }
      case Some(i) =>
        if IsPast(c, now) {
          RemoveKeepsBucket(b, i, key);
          UpdateKeepsValid(j, r, key, RemoveAt(b, i));
        } else {
          ReplaceKeepsBucket(b, i, c, key);
          UpdateKeepsValid(j, r, key, b[i := c]);
        }
    }
  }

  /** A bucket of a valid jar is homed at its key and has distinct slots. */
  lemma ValidBucket(j: Jar, key: string)
    requires Valid(j)
    ensures BucketHomed(Bucket(j, key), key) && SlotsDistinct(Bucket(j, key))
  {
  }

  /** Replacing one bucket with a homed bucket of distinct slots keeps the jar valid. */
  lemma UpdateKeepsValid(j: Jar, r: Jar, key: string, nb: seq<Cookie>)
    requires Valid(j) && r.domains == j.domains[key := nb]
    requires BucketHomed(nb, key) && SlotsDistinct(nb)
    ensures Valid(r)
  {
  }

  /** A cookie of the bucket's key that matches no slot of the bucket can be appended. */
  lemma AppendKeepsBucket(b: seq<Cookie>, c: Cookie, key: string)
    requires BucketHomed(b, key) && SlotsDistinct(b)
    requires c.domain.Some? && KeyOf(c) == key && FindSlot(b, c).None?
    ensures BucketHomed(b + [c], key) && SlotsDistinct(b + [c])
  {
    var nb := b + [c];
    forall p, q | 0 <= p < q < |nb|
      ensures !SameSlot(nb[p], nb[q])
    {
      if q == |b| {
        assert nb[p] == b[p] && nb[q] == c;
      } else {
        assert nb[p] == b[p] && nb[q] == b[q];
      }
    }
  }

  /** Dropping one cookie from a bucket keeps it homed with distinct slots. */
  lemma RemoveKeepsBucket(b: seq<Cookie>, i: nat, key: string)
    requires BucketHomed(b, key) && SlotsDistinct(b) && i < |b|
    ensures BucketHomed(RemoveAt(b, i), key) && SlotsDistinct(RemoveAt(b, i))
  {
    RemoveAtKeepsDistinct(b, i);
    assert forall x :: x in RemoveAt(b, i) ==> x in b;
  }

  /** A cookie of the bucket's key can take the one slot it matches. */
  lemma ReplaceKeepsBucket(b: seq<Cookie>, i: nat, c: Cookie, key: string)
    requires BucketHomed(b, key) && SlotsDistinct(b)
    requires c.domain.Some? && KeyOf(c) == key && FindSlot(b, c) == Some(i)
    ensures BucketHomed(b[i := c], key) && SlotsDistinct(b[i := c])
  {
    var nb := b[i := c];
    forall p, q | 0 <= p < q < |nb|
      ensures !SameSlot(nb[p], nb[q])
    {
      assert !SameSlot(b[p], b[q]);
    }
    assert forall x :: x in nb ==> x in b || x == c;
  }

  /** The deletion proper keeps the invariant: it only unlinks a cookie. */
  lemma DeleteLockedPreservesValid(j: Jar, author: Author, c: Cookie)
    requires Valid(j) && DeleteDefined(j, c)
    ensures Valid(DeleteLocked(j, author, c).jar)
  {
    var r := DeleteLocked(j, author, c).jar;
    var key := KeyOf(c);
    var b := Bucket(j, key);
    ValidBucket(j, key);
    match FindEqual(b, c)
    case None =>
    case Some(i) =>
      RemoveKeepsBucket(b, i, key);
      UpdateKeepsValid(j, r, key, RemoveAt(b, i));
  }

  /** `delete` as written keeps the invariant on both of its paths. */
  lemma DeleteCookiePreservesValid(j: Jar, author: Author, c: Cookie)
    requires Valid(j) && (j.ongoing ==> DeleteDefined(j, c))
    ensures Valid(DeleteCookie(j, author, c).jar)
  {
    if j.ongoing {
      DeleteLockedPreservesValid(j, author, c);
    }
  }

  lemma MultisetRemoveAt(b: seq<Cookie>, i: nat)
    requires i < |b|
    ensures multiset(RemoveAt(b, i)) + multiset{b[i]} == multiset(b)
  {
    assert b == b[..i] + [b[i]] + b[i + 1..];
  }

  lemma MultisetReplace(b: seq<Cookie>, i: nat, c: Cookie)
    requires i < |b|
    ensures multiset(b[i := c]) + multiset{b[i]} == multiset(b) + multiset{c}
  {
    assert b == b[..i] + [b[i]] + b[i + 1..];
    assert b[i := c] == b[..i] + [c] + b[i + 1..];
  }

  /**
    Multiset bookkeeping: if the table grew by `y` where it lost `x`, and
    `y` differs from `x` by trading `q` for `p`, the table traded `q` for `p`.
   */
  lemma Cancel(a: multiset<Cookie>, b: multiset<Cookie>, x: multiset<Cookie>, y: multiset<Cookie>,
               p: multiset<Cookie>, q: multiset<Cookie>)
    requires a + x == b + y && y + p == x + q
    ensures a + p == b + q
  {
    forall z
      ensures (a + p)[z] == (b + q)[z]
    {
      assert (a + x)[z] == (b + y)[z];
      assert (y + p)[z] == (x + q)[z];
    }
    assert a + p == b + q;
  }

  /** Appending to one bucket adds exactly that cookie to the contents. */
  lemma ContentsAppend(m: map<string, seq<Cookie>>, key: string, c: Cookie)
    ensures Contents(m[key := Lookup(m, key) + [c]]) == Contents(m) + multiset{c}
  {
    var b := Lookup(m, key);
    ContentsUpdate(m, key, b + [c]);
    assert multiset(b + [c]) == multiset(b) + multiset{c};
    Cancel(Contents(m[key := b + [c]]), Contents(m), multiset(b), multiset(b + [c]), multiset{}, multiset{c});
  }

  /** Unlinking element `i` of one bucket removes exactly that cookie. */
  lemma ContentsRemoveAt(m: map<string, seq<Cookie>>, key: string, i: nat)
    requires i < |Lookup(m, key)|
    ensures Contents(m[key := RemoveAt(Lookup(m, key), i)]) + multiset{Lookup(m, key)[i]} == Contents(m)
  {
    var b := Lookup(m, key);
    ContentsUpdate(m, key, RemoveAt(b, i));
    MultisetRemoveAt(b, i);
    Cancel(Contents(m[key := RemoveAt(b, i)]), Contents(m), multiset(b), multiset(RemoveAt(b, i)), multiset{b[i]}, multiset{});
  }

  /** Overwriting element `i` of one bucket with `c` trades that cookie for `c`. */
  lemma ContentsReplace(m: map<string, seq<Cookie>>, key: string, i: nat, c: Cookie)
    requires i < |Lookup(m, key)|
    ensures Contents(m[key := Lookup(m, key)[i := c]]) + multiset{Lookup(m, key)[i]} == Contents(m) + multiset{c}
  {
    var b := Lookup(m, key);
    ContentsUpdate(m, key, b[i := c]);
    MultisetReplace(b, i, c);
    Cancel(Contents(m[key := b[i := c]]), Contents(m), multiset(b), multiset(b[i := c]), multiset{b[i]}, multiset{c});
  }

  /**
    How `add` changes what `all_cookies` would return: an append adds the
    incoming cookie; a replacement trades the stored cookie for it (so the
    count is unchanged); an expiring match removes the stored cookie; the
    other paths change nothing.
   */
  lemma AddContents(j: Jar, author: Author, c: Cookie, now: Instant)
    requires c.domain.Some?
    ensures var r := Add(j, author, c, now).jar;
      var b := Bucket(j, KeyOf(c));
      if j.ongoing then Contents(r.domains) == Contents(j.domains)
      else match FindSlot(b, c)
        case None =>
          if IsPast(c, now) then Contents(r.domains) == Contents(j.domains)
          else Contents(r.domains) == Contents(j.domains) + multiset{c}
        case Some(i) =>
          if IsPast(c, now) then Contents(r.domains) + multiset{b[i]} == Contents(j.domains)
          else Contents(r.domains) + multiset{b[i]} == Contents(j.domains) + multiset{c}
  {
    var b := Bucket(j, KeyOf(c));
    if !j.ongoing {
      match FindSlot(b, c)
      case None =>
        if !IsPast(c, now) {
          assert b == Lookup(j.domains, KeyOf(c));
          ContentsAppend(j.domains, KeyOf(c), c);
        }
      case Some(i) =>
        assert b == Lookup(j.domains, KeyOf(c));
        if IsPast(c, now) {
          ContentsRemoveAt(j.domains, KeyOf(c), i);
        } else {
          ContentsReplace(j.domains, KeyOf(c), i, c);
        }
    }
  }

  /**
    How the deletion proper changes the stored multiset: a hit removes
    exactly the cookie found, a miss changes nothing.
   */
  lemma DeleteLockedContents(j: Jar, author: Author, c: Cookie)
    requires DeleteDefined(j, c)
    ensures var r := DeleteLocked(j, author, c).jar;
      var b := Bucket(j, KeyOf(c));
      match FindEqual(b, c)
      case None => Contents(r.domains) == Contents(j.domains)
      case Some(i) => Contents(r.domains) + multiset{b[i]} == Contents(j.domains)
  {
    var r := DeleteLocked(j, author, c).jar;
    var key := KeyOf(c);
    var b := Bucket(j, key);
    match FindEqual(b, c)
    case None =>
    case Some(i) =>
      assert b == Lookup(j.domains, key);
      ContentsRemoveAt(j.domains, key, i);
  }

  /**
    Domains that differ only in ASCII case are filed in one bucket: the
    table's equality holds of them exactly when their keys agree.
   */
  lemma SameBucketIffCaseEqual(a: Cookie, b: Cookie)
    requires a.domain.Some? && b.domain.Some?
    requires NoNul(a.domain.value) && NoNul(b.domain.value)
    ensures StrCaseEqual(a.domain.value, b.domain.value) <==> KeyOf(a) == KeyOf(b)
  {
    CaseEqualIffSameKey(a.domain.value, b.domain.value);
  }

  /**
    The inverted guard, first consequence: a `delete` on an idle jar
    removes nothing and leaves the flag raised, after which every `add`
    is turned away.
   */
  lemma IdleDeleteBlocksAdd(j: Jar, a1: Author, c1: Cookie, a2: Author, c2: Cookie, now: Instant)
    requires !j.ongoing && c2.domain.Some?
    ensures var d := DeleteCookie(j, a1, c1);
      && d.events == []
      && d.jar.domains == j.domains
      && d.jar.ongoing
      && Add(d.jar, a2, c2, now) == Step(d.jar, [])
  {
  }

  /**
    The inverted guard, second consequence: it takes a second `delete`
    for a cookie to go; the first only raises the flag, the second
    removes the first `Equal` match, fires `changed(found, None)` and
    lowers the flag.
   */
  lemma DeleteTwiceRemoves(j: Jar, author: Author, c: Cookie)
    requires !j.ongoing && DeleteDefined(j, c)
    requires FindEqual(Bucket(j, KeyOf(c)), c).Some?
    ensures var d1 := DeleteCookie(j, author, c);
      var d2 := DeleteCookie(d1.jar, author, c);
      var b := Bucket(j, KeyOf(c));
      var i := FindEqual(b, c).value;
      && d1.events == []
      && Contents(d1.jar.domains) == Contents(j.domains)
      && Contents(d2.jar.domains) + multiset{b[i]} == Contents(j.domains)
      && d2.events == Notify(j, author, Some(b[i]), None)
      && !d2.jar.ongoing
  {
    var d1 := DeleteCookie(j, author, c);
    assert d1.jar.domains == j.domains;
    assert Bucket(d1.jar, KeyOf(c)) == Bucket(j, KeyOf(c));
    DeleteLockedContents(d1.jar, author, c);
  }

  /**
    On an idle jar holding a cookie `Equal` to `c`, `delete` as written
    leaves that cookie stored and no signal fires, whereas the intended
    `delete` removes it, fires `changed(found, None)` and leaves the jar
    idle.
   */
  lemma DeleteGuardInverted(j: Jar, author: Author, c: Cookie)
    requires !j.ongoing && DeleteDefined(j, c)
    requires FindEqual(Bucket(j, KeyOf(c)), c).Some?
    ensures var b := Bucket(j, KeyOf(c));
      var i := FindEqual(b, c).value;
      var written := DeleteCookie(j, author, c);
      var intended := DeleteIntended(j, author, c);
      && b[i] in Contents(written.jar.domains)
      && written.events == [] && written.jar.ongoing
      && Contents(intended.jar.domains) + multiset{b[i]} == Contents(j.domains)
      && intended.events == Notify(j, author, Some(b[i]), None)
      && !intended.jar.ongoing
  {
    var b := Bucket(j, KeyOf(c));
    var i := FindEqual(b, c).value;
    var j1 := j.(ongoing := true);
    assert Bucket(j1, KeyOf(c)) == b;
    DeleteLockedContents(j1, author, c);
    if KeyOf(c) in j.domains {
      ContentsPick(j.domains, KeyOf(c));
      assert b[i] in multiset(b);
    }
  }

  /** The intended `delete` on an idle jar keeps the invariant. */
  lemma DeleteIntendedPreservesValid(j: Jar, author: Author, c: Cookie)
    requires Valid(j) && (!j.ongoing ==> DeleteDefined(j, c))
    ensures Valid(DeleteIntended(j, author, c).jar)
  {
    if !j.ongoing {
      var j1 := j.(ongoing := true);
      assert Bucket(j1, KeyOf(c)) == Bucket(j, KeyOf(c));
      DeleteLockedPreservesValid(j1, author, c);
    }
  }

  /**
    A replacement with the same value fires nothing and leaves the serial
    table and the counter alone, whatever serials the newcomer and the
    cookie it displaces had: the newcomer takes the displaced cookie's
    slot, and is numbered exactly when a cookie equal to it as a value
    was numbered before. Adding again a cookie a valid jar already holds
    leaves the jar as it was.
   */
  lemma SameValueSwapKeepsSerials(j: Jar, author: Author, c: Cookie, now: Instant)
    requires !j.ongoing && c.domain.Some? && !IsPast(c, now)
    requires var b := Bucket(j, KeyOf(c));
      FindSlot(b, c).Some? && b[FindSlot(b, c).value].value == c.value
    ensures var r := Add(j, author, c, now);
      var b := Bucket(j, KeyOf(c));
      && Bucket(r.jar, KeyOf(c)) == b[FindSlot(b, c).value := c]
      && r.jar.serials == j.serials && r.jar.serial == j.serial && r.events == []
      && (c in r.jar.serials <==> c in j.serials)
    ensures Valid(j) && c in Bucket(j, KeyOf(c)) ==> Add(j, author, c, now) == Step(j, [])
  {
    var key := KeyOf(c);
    var b := Bucket(j, key);
    var i := FindSlot(b, c).value;
    assert Add(j, author, c, now).jar.domains[key] == b[i := c];
    if Valid(j) && c in b {
      var k :| 0 <= k < |b| && b[k] == c;
      assert key in j.domains;
      assert SlotsDistinct(b);
      assert i == k;
      assert b[i := c] == b;
      assert j.domains[key := b] == j.domains;
    }
  }

  /**
    Max-Age 0 as written never expires: the cookie is a session cookie,
    never past at any instant, while the rule as documented makes it past
    at every instant after the epoch.
   */
  lemma MaxAgeZeroAsWrittenNeverExpires(c: Cookie, t: Instant, now: Instant)
    ensures !IsPast(c.(expires := MaxAgeExpiryAsWritten(0, t)), now)
    ensures now > Epoch ==> IsPast(SetMaxAge(c, 0, t), now)
  {
  }

  /**
    Expiries made by the Max-Age rule, read by the jar: a session cookie
    is never past; Max-Age 0 is past at every instant after the epoch,
    whatever the clock said when it was set; any other Max-Age n set at
    `t` is past exactly after `t + n` seconds.
   */
  lemma MaxAgeAndPast(c: Cookie, maxAge: Int32, t: Instant, now: Instant)
    ensures maxAge == -1 ==> !IsPast(SetMaxAge(c, maxAge, t), now)
    ensures maxAge == 0 ==> (IsPast(SetMaxAge(c, maxAge, t), now) <==> now > Epoch)
    ensures maxAge != -1 && maxAge != 0 ==>
      (IsPast(SetMaxAge(c, maxAge, t), now) <==> now > t + maxAge * UsecPerSecond)
  {
  }
}
