/**
 * Searching the stored meetups: a case-insensitive substring match on the
 * title or the description, newest first.
 *
 * Upper-casing is a parameter `upper`, applied to both sides.
 */
module MeetupSearch {
  import opened Domain

  /** `hay.Contains(needle)`: some suffix of `hay` starts with `needle`. */
  function Contains(hay: string, needle: string): (b: bool)
    ensures b <==> exists k :: 0 <= k <= |hay| && needle <= hay[k..]
    decreases |hay|
  {
    if needle <= hay then
      assert hay[0..] == hay;
      true
    else if hay == [] then false
    else
      var found := Contains(hay[1..], needle);
      assert forall k :: 1 <= k <= |hay| ==> hay[1..][k - 1..] == hay[k..];
      found
  }

  /** The search predicate of one meetup. */
  predicate Matches(m: Meetup, criteria: string, upper: string -> string)
  {
    Contains(upper(m.title), upper(criteria)) || Contains(upper(m.description), upper(criteria))
  }

  /** The meetups that match, in store order. */
  function Where(ms: seq<Meetup>, criteria: string, upper: string -> string): (r: seq<Meetup>)
    ensures forall m :: multiset(r)[m] == if Matches(m, criteria, upper) then multiset(ms)[m] else 0
  {
    if ms == [] then []
    else
      var n := |ms| - 1;
      assert ms == ms[..n] + [ms[n]];
      Where(ms[..n], criteria, upper) + (if Matches(ms[n], criteria, upper) then [ms[n]] else [])
  }

  predicate NewestFirst(ms: seq<Meetup>)
  {
    forall k, l :: 0 <= k < l < |ms| ==> ms[k].creationDate >= ms[l].creationDate
  }

  /** Puts `m` into a newest-first list after every meetup at least as new. */
  function InsertByCreation(m: Meetup, s: seq<Meetup>): (r: seq<Meetup>)
    requires NewestFirst(s)
    ensures NewestFirst(r)
    ensures multiset(r) == multiset(s) + multiset{m}
  {
    if s == [] then [m]
    else if m.creationDate > s[0].creationDate then [m] + s
    else
      var rest := InsertByCreation(m, s[1..]);
      InsertAfterFirst(m, s, rest);
      [s[0]] + rest
  }

  /** A meetup no newer than the head goes after it, into the tail. */
  lemma InsertAfterFirst(m: Meetup, s: seq<Meetup>, rest: seq<Meetup>)
    requires NewestFirst(s) && s != [] && m.creationDate <= s[0].creationDate
    requires NewestFirst(rest) && multiset(rest) == multiset(s[1..]) + multiset{m}
    ensures NewestFirst([s[0]] + rest)
    ensures multiset([s[0]] + rest) == multiset(s) + multiset{m}
  {
    assert s == [s[0]] + s[1..];
    var r := [s[0]] + rest;
    forall k | 0 <= k < |rest|
      ensures rest[k].creationDate <= s[0].creationDate
    {
      assert rest[k] in multiset(rest);
      if rest[k] != m {
        assert rest[k] in multiset(s[1..]);
        var i :| 0 <= i < |s[1..]| && s[1..][i] == rest[k];
        assert s[1..][i] == s[i + 1];
      }
    }
    forall k, l | 0 <= k < l < |r|
      ensures r[k].creationDate >= r[l].creationDate
    {
      assert r[l] == rest[l - 1];
      if k > 0 {
        assert r[k] == rest[k - 1];
      }
    }
  }

  /** `OrderByDescending(m => m.CreationDate)`, keeping ties in their order. */
  function OrderByCreationDescending(ms: seq<Meetup>): (r: seq<Meetup>)
    ensures NewestFirst(r)
    ensures multiset(r) == multiset(ms)
  {
    if ms == [] then []
    else
      var n := |ms| - 1;
      assert ms == ms[..n] + [ms[n]];
      InsertByCreation(ms[n], OrderByCreationDescending(ms[..n]))
  }

  /**
   * Search: every stored meetup whose upper-cased title or description
   * contains the upper-cased criteria, as often as it is stored, and
   * nothing else, newest first.
   */
  function Search(ms: seq<Meetup>, criteria: string, upper: string -> string): (r: seq<Meetup>)
    ensures forall m :: m in r <==> m in ms && Matches(m, criteria, upper)
    ensures forall m :: multiset(r)[m] == if Matches(m, criteria, upper) then multiset(ms)[m] else 0
    ensures NewestFirst(r)
  {
    var found := Where(ms, criteria, upper);
    var r := OrderByCreationDescending(found);
    assert forall m :: m in r <==> m in multiset(r);
    assert forall m :: m in ms <==> m in multiset(ms);
    r
  }
}
