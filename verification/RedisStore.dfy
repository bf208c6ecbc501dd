/** The store behind the shared limiter: many buckets, one key each. */
module RedisStore {
  import opened Wrappers
  import opened RedisLimiter

  datatype Bucket = Bucket(tenant: string, plan: string, scope: string)

  const PREFIX := "rate_limit"

  /** `x` and `y` with a colon between them. */
  function Join(x: string, y: string): string {
    x + [':'] + y
  }

  function Key(b: Bucket): string {
    Join(PREFIX, Join(b.tenant, Join(b.plan, b.scope)))
  }

  lemma KeyText(b: Bucket)
    ensures Key(b) == "rate_limit:" + b.tenant + ":" + b.plan + ":" + b.scope
  {
    assert PREFIX + [':'] == "rate_limit:";
    assert Key(b) == PREFIX + [':'] + b.tenant + [':'] + b.plan + [':'] + b.scope;
  }

  predicate ColonFree(b: Bucket) {
    ':' !in b.tenant && ':' !in b.plan && ':' !in b.scope
  }

  lemma UniqueSplit(a: string, x: string, b: string, y: string)
    requires Join(a, x) == Join(b, y) && ':' !in a && ':' !in b
    ensures a == b && x == y
  {
    var s := Join(a, x);
    assert s[|a|] == ':' && s[|b|] == ':';
    assert forall i | 0 <= i < |a| :: s[i] == a[i];
    assert forall i | 0 <= i < |b| :: s[i] == b[i];
    assert a == s[..|a|] && b == s[..|b|];
    assert x == s[|a| + 1..] && y == s[|b| + 1..];
  }

  function Colons(s: string): nat {
    multiset(s)[':']
  }

  lemma JoinAddsAColon(x: string, y: string)
    ensures Colons(Join(x, y)) == Colons(x) + 1 + Colons(y)
  {
    assert multiset([':'])[':'] == 1;
  }

  lemma ColonsAddUp(b: Bucket)
    ensures Colons(Join(b.tenant, Join(b.plan, b.scope))) == Colons(b.tenant) + Colons(b.plan) + Colons(b.scope) + 2
  {
    JoinAddsAColon(b.tenant, Join(b.plan, b.scope));
    JoinAddsAColon(b.plan, b.scope);
  }

  /** A bucket without colons shares its key with no other bucket, whatever the
      other's components contain. */
  lemma KeyIsUnique(b: Bucket, other: Bucket)
    requires ColonFree(b) && Key(other) == Key(b)
    ensures other == b
  {
    UniqueSplit(PREFIX, Join(b.tenant, Join(b.plan, b.scope)), PREFIX, Join(other.tenant, Join(other.plan, other.scope)));
    ColonsAddUp(b);
    ColonsAddUp(other);
    assert ColonFree(other) by { hide Join; }
    hide Colons, Key;
    UniqueSplit(b.tenant, Join(b.plan, b.scope), other.tenant, Join(other.plan, other.scope));
    UniqueSplit(b.plan, b.scope, other.plan, other.scope);
  }

  lemma JoinIsAssociative(x: string, y: string, z: string)
    ensures Join(Join(x, y), z) == Join(x, Join(y, z))
  {
    assert Join(Join(x, y), z) == x + [':'] + y + [':'] + z == Join(x, Join(y, z));
  }

  lemma SplitAtColon(s: string) returns (x: string, y: string)
    requires ':' in s
    ensures s == Join(x, y) && |x| < |s|
  {
    var i :| 0 <= i < |s| && s[i] == ':';
    x, y := s[..i], s[i + 1..];
  }

  /** A bucket with a colon in any component shares its key with another one. */
  lemma KeyIsShared(b: Bucket) returns (other: Bucket)
    requires !ColonFree(b)
    ensures other != b && Key(other) == Key(b)
  {
    if ':' in b.tenant {
      var x, y := SplitAtColon(b.tenant);
      other := Bucket(x, Join(y, b.plan), b.scope);
      JoinIsAssociative(x, y, Join(b.plan, b.scope));
      JoinIsAssociative(y, b.plan, b.scope);
    } else if ':' in b.plan {
      var x, y := SplitAtColon(b.plan);
      other := Bucket(Join(b.tenant, x), y, b.scope);
      assert |other.tenant| > |b.tenant|;
      JoinIsAssociative(x, y, b.scope);
      JoinIsAssociative(b.tenant, x, Join(y, b.scope));
    } else {
      var x, y := SplitAtColon(b.scope);
      other := Bucket(b.tenant, Join(b.plan, x), y);
      assert |other.plan| > |b.plan|;
      JoinIsAssociative(b.plan, x, y);
    }
  }

  lemma KeyIsUniqueIffColonFree(b: Bucket)
    ensures (forall other | Key(other) == Key(b) :: other == b) <==> ColonFree(b)
  {
    if ColonFree(b) {
      hide Key;
      forall other | Key(other) == Key(b) ensures other == b {
        KeyIsUnique(b, other);
      }
    } else {
      var other := KeyIsShared(b);
    }
  }

  datatype Request = Request(bucket: Bucket, params: Params, now: int)

  type Store = map<string, Hash>

  function Lookup(s: Store, key: string): Option<Hash> {
    if key in s then Some(s[key]) else None
  }

  predicate AllValid(rs: seq<Request>) {
    forall r | r in rs :: r.params.Valid()
  }

  /** The store and the decisions after a sequence of requests. */
  function Serve(s: Store, rs: seq<Request>): (Store, seq<bool>)
    requires AllValid(rs)
  {
    if rs == [] then (s, []) else
      var front, last := rs[..|rs| - 1], rs[|rs| - 1];
      var (before, log) := Serve(s, front);
      var key := Key(last.bucket);
      var (h, ok) := Script(last.params, Lookup(before, key), last.now);
      (before[key := h], log + [ok])
  }

  /** The requests for one bucket ... */
  function Only(b: Bucket, rs: seq<Request>): (r: seq<Request>)
    ensures AllValid(rs) ==> AllValid(r)
  {
    if rs == [] then [] else
      var front, last := Only(b, rs[..|rs| - 1]), rs[|rs| - 1];
      if last.bucket == b then front + [last] else front
  }

  /** ... and, out of the decisions taken for `rs`, those for that bucket. */
  function OnlyDecisions(b: Bucket, rs: seq<Request>, log: seq<bool>): seq<bool>
    requires |rs| == |log|
  {
    if rs == [] then [] else
      var n := |rs| - 1;
      var front := OnlyDecisions(b, rs[..n], log[..n]);
      if rs[n].bucket == b then front + [log[n]] else front
  }

  lemma {:induction false} ServeDecidesAll(s: Store, rs: seq<Request>)
    requires AllValid(rs)
    ensures |Serve(s, rs).1| == |rs|
  {
    if rs != [] {
      ServeDecidesAll(s, rs[..|rs| - 1]);
    }
  }

  /** Buckets do not interfere: in an interleaved run over any requests, the
      decisions for a colon-free bucket, and the hash it ends with, are those of the
      run of its own requests alone. */
  lemma {:induction false} BucketsAreIsolated(s: Store, rs: seq<Request>, b: Bucket)
    requires AllValid(rs) && ColonFree(b)
    ensures |Serve(s, rs).1| == |rs|
    ensures OnlyDecisions(b, rs, Serve(s, rs).1) == Serve(s, Only(b, rs)).1
    ensures Lookup(Serve(s, rs).0, Key(b)) == Lookup(Serve(s, Only(b, rs)).0, Key(b))
  {
    hide Key, Script;
    ServeDecidesAll(s, rs);
    if rs != [] {
      var front, last := rs[..|rs| - 1], rs[|rs| - 1];
      BucketsAreIsolated(s, front, b);
      assert Serve(s, rs).1[..|rs| - 1] == Serve(s, front).1;
      if last.bucket == b {
        assert Only(b, rs)[..|Only(b, front)|] == Only(b, front);
      } else if Key(last.bucket) == Key(b) {
        KeyIsUnique(b, last.bucket);
      }
    }
  }

  /** In every interleaved run from an empty store, the decisions for the bucket are those of
      its own requests alone. */
  ghost predicate IsIsolated(b: Bucket) {
    forall rs | AllValid(rs) :: DecidesAlone(b, rs)
  }

  predicate DecidesAlone(b: Bucket, rs: seq<Request>)
    requires AllValid(rs)
  {
    var log := Serve(map[], rs).1;
    |log| == |rs| && OnlyDecisions(b, rs, log) == Serve(map[], Only(b, rs)).1
  }

  lemma ServeStep(s: Store, rs: seq<Request>, r: Request)
    requires AllValid(rs + [r])
    ensures AllValid(rs)
    ensures var (before, log) := Serve(s, rs);
            var (h, ok) := Script(r.params, Lookup(before, Key(r.bucket)), r.now);
            Serve(s, rs + [r]) == (before[Key(r.bucket) := h], log + [ok])
  {
    hide Script, Key;
    assert (rs + [r])[..|rs|] == rs && (rs + [r])[|rs|] == r;
    forall x | x in rs ensures x.params.Valid() {
      assert x in rs + [r];
    }
  }

  lemma ServeOne(r: Request)
    requires AllValid([r])
    ensures r.params.Valid()
    ensures var (h, ok) := Script(r.params, None, r.now);
            Serve(map[], [r]) == (map[Key(r.bucket) := h], [ok])
  {
    assert r in [r] && [] + [r] == [r];
    assert AllValid([]) && Serve(map[], []) == (map[], []);
    hide Script, Key, Serve;
    ServeStep(map[], [], r);
    var (h, ok) := Script(r.params, None, r.now);
    assert Serve(map[], [r]) == (map[][Key(r.bucket) := h], [] + [ok]);
    assert map[][Key(r.bucket) := h] == map[Key(r.bucket) := h] && [] + [ok] == [ok];
  }

  lemma ServeTwo(r1: Request, r2: Request)
    requires AllValid([r1, r2]) && Key(r1.bucket) == Key(r2.bucket)
    ensures r1.params.Valid() && r2.params.Valid()
    ensures var (h, ok1) := Script(r1.params, None, r1.now);
            var (_, ok2) := Script(r2.params, Some(h), r2.now);
            Serve(map[], [r1, r2]).1 == [ok1, ok2]
  {
    assert r1 in [r1, r2] && r2 in [r1, r2] && [r1] + [r2] == [r1, r2];
    hide Script, Key, Serve;
    ServeOne(r1);
    ServeStep(map[], [r1], r2);
  }

  lemma OnlyTheSecond(b: Bucket, r1: Request, r2: Request, ok1: bool, ok2: bool)
    requires r1.bucket != b && r2.bucket == b
    ensures Only(b, [r1, r2]) == [r2] && OnlyDecisions(b, [r1, r2], [ok1, ok2]) == [ok2]
  {
    assert Only(b, []) == [] && OnlyDecisions(b, [], []) == [];
    hide Only, OnlyDecisions;
    OnlyStep(b, [], [], r1, ok1);
    assert [] + [r1] == [r1] && [] + [ok1] == [ok1];
    OnlyStep(b, [r1], [ok1], r2, ok2);
    assert [r1] + [r2] == [r1, r2] && [ok1] + [ok2] == [ok1, ok2];
  }

  /** Two buckets with one key, one token: the other takes it. */
  lemma PartnerTakesTheToken(b: Bucket, other: Bucket)
    requires other != b && Key(other) == Key(b)
    ensures !IsIsolated(b)
  {
    hide *;
    var p := OneToken();
    var first, second := Request(other, p, 0), Request(b, p, 0);
    TwoAreValid(first, second);
    ServeTwo(first, second);
    ServeOne(second);
    OnlyTheSecond(b, first, second, true, false);
    NotAlone(b, [first, second], [true, false], [false], [true]);
  }

  lemma OneToken() returns (p: Params)
    ensures p.Valid() && Script(p, None, 0) == (Hash(0, 0), true) && !Script(p, Some(Hash(0, 0)), 0).1
  {
    p := Params(1, 0, 1);
  }

  lemma TwoAreValid(r1: Request, r2: Request)
    requires r1.params.Valid() && r2.params.Valid()
    ensures AllValid([r1, r2]) && AllValid([r2])
  {
  }

  lemma NotAlone(b: Bucket, rs: seq<Request>, log: seq<bool>, own: seq<bool>, alone: seq<bool>)
    requires AllValid(rs) && Serve(map[], rs).1 == log && |log| == |rs|
    requires OnlyDecisions(b, rs, log) == own && Serve(map[], Only(b, rs)).1 == alone
    requires |own| > 0 && |alone| > 0 && own[0] != alone[0]
    ensures !IsIsolated(b)
  {
    hide Serve, Only, OnlyDecisions, AllValid;
    assert !DecidesAlone(b, rs);
  }

  lemma OnlyStep(b: Bucket, rs: seq<Request>, log: seq<bool>, r: Request, ok: bool)
    requires |rs| == |log|
    ensures Only(b, rs + [r]) == Only(b, rs) + if r.bucket == b then [r] else []
    ensures OnlyDecisions(b, rs + [r], log + [ok]) == OnlyDecisions(b, rs, log) + if r.bucket == b then [ok] else []
  {
    assert (rs + [r])[..|rs|] == rs && (log + [ok])[..|log|] == log;
  }

  /** A bucket's decisions are its own in every interleaved run if and only if none of its
      components has a colon. */
  lemma IsIsolatedIffColonFree(b: Bucket)
    ensures IsIsolated(b) <==> ColonFree(b)
  {
    hide Key, Serve, Only, OnlyDecisions;
    if ColonFree(b) {
      forall rs | AllValid(rs) ensures DecidesAlone(b, rs) {
        BucketsAreIsolated(map[], rs, b);
      }
    } else {
      var other := KeyIsShared(b);
      PartnerTakesTheToken(b, other);
    }
  }

  /** Serving the requests of one bucket is a run of the script on one key. */
  lemma {:induction false} ServeIsRun(p: Params, b: Bucket, rs: seq<Request>, times: seq<int>)
    returns (hs: seq<Option<Hash>>)
    requires p.Valid() && AllValid(rs) && |times| == |rs|
    requires forall k | 0 <= k < |rs| :: rs[k] == Request(b, p, times[k])
    ensures IsRun(p, hs, times, Serve(map[], rs).1)
    ensures hs[|rs|] == Lookup(Serve(map[], rs).0, Key(b))
  {
    if rs == [] {
      hs := [None];
    } else {
      var n := |rs| - 1;
      var front := ServeIsRun(p, b, rs[..n], times[..n]);
      var log, logFront := Serve(map[], rs).1, Serve(map[], rs[..n]).1;
      hs := front + [Lookup(Serve(map[], rs).0, Key(b))];
      forall k | 0 <= k < |log|
        ensures hs[k + 1] == Some(Script(p, hs[k], times[k]).0) && log[k] == Script(p, hs[k], times[k]).1
      {
        if k < n {
          assert log[k] == logFront[k] && times[k] == times[..n][k];
          assert hs[k] == front[k] && hs[k + 1] == front[k + 1];
        }
      }
    }
  }

  /** The limiter in front of the store: builds the key and runs the script. */
  class TokenBucketRateLimiter {
    var store: Store
    ghost var served: seq<Request>
    ghost var log: seq<bool>

    ghost predicate Valid()
      reads this
    {
      AllValid(served) && Serve(map[], served) == (store, log)
    }

    constructor ()
      ensures Valid() && served == [] && log == []
    {
      store, served, log := map[], [], [];
    }

    method IsAllowed(bucket: Bucket, params: Params, now: int)
      returns (allowed: bool, remaining: int, capacity: nat)
      requires Valid() && params.Valid()
      modifies this
      ensures Valid()
      ensures served == old(served) + [Request(bucket, params, now)] && log == old(log) + [allowed]
      ensures capacity == params.capacity && remaining == store[Key(bucket)].tokens
      ensures allowed ==> 0 <= remaining < capacity
      ensures !allowed ==> remaining <= 0
      ensures forall key | key != Key(bucket) :: Lookup(store, key) == old(Lookup(store, key))
    {
      hide Key, Script;
      var key := Key(bucket);
      var (h, ok) := Script(params, Lookup(store, key), now);
      ScriptDecides(params, Lookup(store, key), now);
      store := store[key := h];
      served, log := served + [Request(bucket, params, now)], log + [ok];
      assert served[..|served| - 1] == old(served);
      return ok, h.tokens, params.capacity;
    }
  }
}
