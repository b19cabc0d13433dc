/** The share-link handlers: the share-permission gate, listing with the
    lazy expiry sweep, creation with permanent-link reuse, token generation
    and expiry, and deletion by hash. The share store is a map from hash to
    link; the clock and the random bytes are inputs. */
module Share {
  import opened Http
  import opened Users
  import Codecs
  import Resource

  const ApiSharePrefix := "/api/share"

  /** Instants are nanoseconds since the Unix epoch. Go's zero time (January
      1 of year 1, UTC) is what a permanent link carries as its expiry. */
  const ZeroTime: int := -62135596800 * 1_000_000_000

  datatype ShareLink = ShareLink(hash: string, path: string, expires: bool, expireDate: int)

  /** A link is expired when it expires at all and its date is before now. */
  predicate Expired(link: ShareLink, now: int)
  {
    link.expires && link.expireDate < now
  }

  /** What the share handlers write back. */
  datatype ShareBody = Links(links: seq<ShareLink>) | Link(link: ShareLink) | Text(text: string)

  // ---------------------------------------------------------------------
  // The gate (getShareData).
  // ---------------------------------------------------------------------

  /** `filepath.Join` of two elements, without its Clean step: the parts
      are put together around a '/'. A resolved path already starts with
      '/', so the scope "/srv" and the path "/docs" give "/srv//docs", where
      `filepath.Join` gives "/srv/docs". */
  function JoinPath(a: string, b: string): (p: string)
    ensures HasPrefix(p, a) && HasSuffix(p, b)
    ensures a != "" && b != "" ==> |p| == |a| + 1 + |b| && p[|a|] == '/'
    ensures a == "" || b == "" ==> |p| == |a| + |b|
  {
    if a == "" then b else if b == "" then a else a + "/" + b
  }

  /** `getShareData`: the resource gate on the share route, then the share
      permission; on success the path joined to the user's scope. */
  function ShareTarget(r: Request, user: User, check: RuleCheck): (t: Result<string, int>)
    reads user
    ensures t.Ok? <==> check(Resource.NormalizePath(r.urlPath, ApiSharePrefix), user.rules) && user.perm.share
    ensures t.Ok? ==> t.value == JoinPath(user.scope, Resource.NormalizePath(r.urlPath, ApiSharePrefix))
    ensures t.Err? ==> t.error == StatusForbidden
  {
    var gate := Resource.ResolveResource(r.urlPath, ApiSharePrefix, user, check);
    if gate.Err? then Err(gate.error)
    else if !user.perm.share then Err(StatusForbidden)
    else Ok(JoinPath(user.scope, gate.value))
  }

  // ---------------------------------------------------------------------
  // The expiry sweep: what it is meant to do.
  // ---------------------------------------------------------------------

  /** The links still valid at `now`, in their original order. */
  function Unexpired(links: seq<ShareLink>, now: int): (kept: seq<ShareLink>)
    ensures |kept| <= |links|
    ensures forall l :: l in kept <==> l in links && !Expired(l, now)
    decreases |links|
  {
    if links == [] then []
    else
      var rest := Unexpired(links[1..], now);
      if Expired(links[0], now) then rest else [links[0]] + rest
  }

  lemma {:induction false} UnexpiredAppend(a: seq<ShareLink>, b: seq<ShareLink>, now: int)
    ensures Unexpired(a + b, now) == Unexpired(a, now) + Unexpired(b, now)
    decreases |a|
  {
    if a != [] {
      assert (a + b)[1..] == a[1..] + b;
      UnexpiredAppend(a[1..], b, now);
    } else {
      assert a + b == b;
    }
  }

  /** The hashes of the links expired at `now`. */
  function ExpiredHashes(links: seq<ShareLink>, now: int): set<string>
  {
    set l | l in links && Expired(l, now) :: l.hash
  }

  /** The store after the sweep of a path: the links of that path expired at
      `now` are gone, except those whose deletion fails (`failing`, whose
      errors the handler ignores); everything else is kept. */
  function SweptStore(store: map<string, ShareLink>, path: string, now: int, failing: set<string>)
    : (swept: map<string, ShareLink>)
    ensures forall h :: h in swept <==>
              h in store && !(store[h].path == path && Expired(store[h], now) && h !in failing)
    ensures forall h | h in swept :: swept[h] == store[h]
  {
    map h | h in store && !(store[h].path == path && Expired(store[h], now) && h !in failing) :: store[h]
  }

  // ---------------------------------------------------------------------
  // The expiry sweep as written: removal from the slice while ranging
  // over it.
  // ---------------------------------------------------------------------

  /** How the literal loop ends: with the slice it renders, or with a panic
      (None), and the hashes it deleted from the store on the way. */
  datatype SweepRun = SweepRun(rendered: Option<seq<ShareLink>>, deleted: seq<string>)

  /** The literal loop from index `i` on, having deleted `deleted` so far.
      `backing` is the slice's backing array, whose length the range fixed
      at the start; `len` is the current length of the slice.
      `s = append(s[:i], s[i+1:]...)` shifts backing[i+1..len] one place
      left in the same array and shortens the slice, while the range keeps
      reading backing[i] for every original index; once `i` reaches the
      shortened length, `s[i+1:]` is out of bounds and the handler panics,
      after the store deletion that precedes it. */
  function RangeRemoveFrom(backing: seq<ShareLink>, len: nat, i: nat, now: int, deleted: seq<string>)
    : (run: SweepRun)
    requires len <= |backing| && i <= |backing|
    ensures |deleted| <= |run.deleted| <= |deleted| + (|backing| - i) && run.deleted[..|deleted|] == deleted
    ensures run.rendered.Some? ==> |run.rendered.value| <= len
    ensures run.rendered.None? ==> |run.deleted| > |deleted|
    ensures forall h | h in run.deleted[|deleted|..] :: exists l | l in backing :: l.hash == h && Expired(l, now)
    decreases |backing| - i
  {
    if i == |backing| then SweepRun(Some(backing[..len]), deleted)
    else if !Expired(backing[i], now) then RangeRemoveFrom(backing, len, i + 1, now, deleted)
    else if len < i + 1 then SweepRun(None, deleted + [backing[i].hash])
    else
      var shifted := backing[..i] + backing[i + 1..len] + backing[len - 1..];
      var run := RangeRemoveFrom(shifted, len - 1, i + 1, now, deleted + [backing[i].hash]);
      assert forall l | l in shifted :: l in backing;
      assert run.deleted[|deleted|..] == [backing[i].hash] + run.deleted[|deleted| + 1..];
      run
  }

  function RangeRemove(links: seq<ShareLink>, now: int): (run: SweepRun)
    ensures |run.deleted| <= |links|
    ensures run.rendered.Some? ==> |run.rendered.value| <= |links|
    ensures forall h | h in run.deleted :: exists l | l in links :: l.hash == h && Expired(l, now)
  {
    var run := RangeRemoveFrom(links, |links|, 0, now, []);
    assert run.deleted[0..] == run.deleted;
    run
  }

  /** `s = append(s[:i], s[i+1:]...)` on a slice of length `len` over the
      array `a`: the elements after `i` move one place left in the same
      array, and the last slot keeps its old element. */
  method ShiftLeft(a: array<ShareLink>, i: nat, len: nat)
    requires i < len <= a.Length
    modifies a
    ensures a[..] == old(a[..i]) + old(a[i + 1..len]) + old(a[len - 1..])
  {
    ghost var before := a[..];
    forall k | i <= k < len - 1 {
      a[k] := a[k + 1];
    }
    assert a[..] == before[..i] + before[i + 1..len] + before[len - 1..];
  }

  /** The loop of `shareGetHandler` as written, over the slice's backing
      array. */
  method SweepAsWritten(links: seq<ShareLink>, now: int) returns (rendered: Option<seq<ShareLink>>, deleted: seq<string>)
    ensures SweepRun(rendered, deleted) == RangeRemove(links, now)
  {
    var s := new ShareLink[|links|](k requires 0 <= k < |links| => links[k]);
    assert s[..] == links;
    var len: nat := s.Length;
    deleted := [];
    var i := 0;
    while i < s.Length
      invariant 0 <= i <= s.Length && len <= s.Length
      invariant RangeRemove(links, now) == RangeRemoveFrom(s[..], len, i, now, deleted)
    {
      var link := s[i];
      if Expired(link, now) {
        deleted := deleted + [link.hash];
        if len < i + 1 {
          rendered := None;
          return;
        }
        ShiftLeft(s, i, len);
        len := len - 1;
      }
      i := i + 1;
    }
    rendered := Some(s[..len]);
  }

  /** The defect: of two adjacent expired links, the second is skipped. It
      stays in the rendered list and in the store, where the intended sweep
      drops it. */
  lemma AdjacentExpiredLinkSurvives(e1: ShareLink, e2: ShareLink, f: ShareLink, now: int)
    requires Expired(e1, now) && Expired(e2, now) && !Expired(f, now)
    ensures RangeRemove([e1, e2, f], now) == SweepRun(Some([e2, f]), [e1.hash])
    ensures Unexpired([e1, e2, f], now) == [f]
  {
    var b0 := [e1, e2, f];
    var b1 := [e2, f, f];
    assert b0[..0] + b0[1..3] + b0[2..] == b1;
    var d := [e1.hash];
    assert [] + d == d;
    assert RangeRemove(b0, now) == RangeRemoveFrom(b1, 2, 1, now, d);
    assert b1[..2] == [e2, f];
    assert RangeRemoveFrom(b1, 2, 3, now, d) == SweepRun(Some([e2, f]), d);
    assert RangeRemoveFrom(b1, 2, 1, now, d) == RangeRemoveFrom(b1, 2, 2, now, d);
  }

  /** The defect, second form: two expired links at the end make the loop
      slice past the shortened length, and the handler panics. */
  lemma TrailingExpiredLinksPanic(e1: ShareLink, e2: ShareLink, now: int)
    requires Expired(e1, now) && Expired(e2, now)
    ensures RangeRemove([e1, e2], now) == SweepRun(None, [e1.hash, e2.hash])
  {
    var b0 := [e1, e2];
    var b1 := [e2, e2];
    assert b0[..0] + b0[1..2] + b0[1..] == b1;
    assert [] + [e1.hash] == [e1.hash];
    assert RangeRemove(b0, now) == RangeRemoveFrom(b1, 1, 1, now, [e1.hash]);
    assert RangeRemoveFrom(b1, 1, 1, now, [e1.hash]) == SweepRun(None, [e1.hash, e2.hash]);
  }

  /** The defect, third form: after a removal the last slot of the backing
      array still holds the old last link, which the range reads again. An
      expired link at the end is deleted twice, and the second time the
      slice is too short and the handler panics. */
  lemma StaleLastLinkPanics(e1: ShareLink, f: ShareLink, e2: ShareLink, now: int)
    requires Expired(e1, now) && !Expired(f, now) && Expired(e2, now)
    ensures RangeRemove([e1, f, e2], now) == SweepRun(None, [e1.hash, e2.hash, e2.hash])
    ensures Unexpired([e1, f, e2], now) == [f]
  {
    var b0 := [e1, f, e2];
    var b1 := [f, e2, e2];
    assert b0[..0] + b0[1..3] + b0[2..] == b1;
    assert b1[..1] + b1[2..2] + b1[1..] == b1;
    assert [] + [e1.hash] == [e1.hash];
    assert RangeRemove(b0, now) == RangeRemoveFrom(b1, 2, 1, now, [e1.hash]);
    assert RangeRemoveFrom(b1, 1, 2, now, [e1.hash, e2.hash]) == SweepRun(None, [e1.hash, e2.hash, e2.hash]);
    assert RangeRemoveFrom(b1, 2, 1, now, [e1.hash]) == RangeRemoveFrom(b1, 1, 2, now, [e1.hash, e2.hash]);
    assert b0[1..] == [f, e2] && [f, e2][1..] == [e2] && [e2][1..] == [];
    assert Unexpired([e2], now) == [];
    assert Unexpired([f, e2], now) == [f];
  }

  /** Without an expired link the literal loop renders the list untouched,
      as the intended sweep does. */
  lemma {:induction false} NothingExpiredAgrees(backing: seq<ShareLink>, i: nat, now: int)
    requires i <= |backing|
    requires forall k | 0 <= k < |backing| :: !Expired(backing[k], now)
    ensures RangeRemoveFrom(backing, |backing|, i, now, []) == SweepRun(Some(backing), [])
    ensures Unexpired(backing, now) == backing
    decreases |backing| - i
  {
    if i < |backing| {
      NothingExpiredAgrees(backing, i + 1, now);
    } else {
      assert backing[..|backing|] == backing;
      UnexpiredOfValid(backing, now);
    }
  }

  lemma {:induction false} UnexpiredOfValid(links: seq<ShareLink>, now: int)
    requires forall k | 0 <= k < |links| :: !Expired(links[k], now)
    ensures Unexpired(links, now) == links
    decreases |links|
  {
    if links != [] {
      UnexpiredOfValid(links[1..], now);
    }
  }

  // ---------------------------------------------------------------------
  // Creation: token, expiry, link.
  // ---------------------------------------------------------------------

  /** A share token: the URL-safe base64 text of six random bytes, eight
      alphabet characters with no padding, from which the bytes can be
      recovered. */
  function NewToken(random: seq<byte>): (token: string)
    requires |random| == 6
    ensures |token| == 8
    ensures Codecs.AllBase64Url(token) && Codecs.PadChar !in token
    ensures Codecs.DecodeBase64Url(token) == Some(random)
  {
    Codecs.DecodeEncodeBase64Url(random);
    Codecs.EncodeBase64Url(random)
  }

  const Second: nat := 1_000_000_000
  const Minute: nat := 60 * Second
  const Hour: nat := 60 * Minute
  const Day: nat := 24 * Hour

  /** The duration of one `unit`: seconds, minutes and days are recognised,
      any other unit (the empty one included) counts hours. */
  function UnitNanos(unit: string): (d: nat)
    ensures d > 0
    ensures unit == "seconds" ==> d == Second
    ensures unit == "minutes" ==> d == 60 * Second
    ensures unit == "days" ==> d == 86400 * Second
    ensures unit !in {"seconds", "minutes", "days"} ==> d == 3600 * Second
  {
    if unit == "seconds" then Second
    else if unit == "minutes" then Minute
    else if unit == "days" then Day
    else Hour
  }

  /** The link `sharePostHandler` builds: it expires exactly when an
      `expires` value was given, and then at now plus that many units; an
      `expires` value that is not an integer yields no link. */
  function NewShareLink(path: string, token: string, expire: string, unit: string, now: int): (link: Option<ShareLink>)
    ensures expire == "" ==> link == Some(ShareLink(token, path, false, ZeroTime))
    ensures expire != "" ==> (link.Some? <==> Codecs.Atoi(expire).Some?)
    ensures link.Some? ==> link.value.hash == token && link.value.path == path
    ensures link.Some? ==> link.value.expires == (expire != "")
    ensures link.Some? && expire != "" ==>
              link.value.expireDate == now + Codecs.Atoi(expire).value * UnitNanos(unit)
  {
    if expire == "" then Some(ShareLink(token, path, false, ZeroTime))
    else
      match Codecs.Atoi(expire)
      case None => None
      case Some(num) => Some(ShareLink(token, path, true, now + num * UnitNanos(unit)))
  }

  /** A link created with `expires=n` is listed by every sweep up to n
      units after its creation and by none after (for a negative n, it is
      already expired at creation). */
  lemma ListedUntilDeadline(path: string, token: string, expire: string, unit: string,
                            created: int, later: int, others: seq<ShareLink>)
    requires Codecs.Atoi(expire).Some?
    ensures var link := NewShareLink(path, token, expire, unit, created).value;
            link in Unexpired(others + [link], later) <==>
              later <= created + Codecs.Atoi(expire).value * UnitNanos(unit)
  {
    var link := NewShareLink(path, token, expire, unit, created).value;
    assert link in others + [link];
  }

  /** A permanent link stored for a path. */
  predicate HasPermanent(store: map<string, ShareLink>, path: string)
  {
    exists h | h in store :: store[h].path == path && !store[h].expires
  }

  // ---------------------------------------------------------------------
  // Deletion by hash.
  // ---------------------------------------------------------------------

  /** The hash named by a delete request: the route prefix removed, then at
      most one trailing '/', then at most one leading '/'. */
  function ShareHash(urlPath: string): (hash: string)
    ensures |hash| <= |urlPath|
    ensures var rest := TrimPrefix(urlPath, ApiSharePrefix);
            var trail := if HasSuffix(rest, "/") then "/" else "";
            var lead := if HasPrefix(rest[..|rest| - |trail|], "/") then "/" else "";
            rest == lead + hash + trail
  {
    TrimPrefix(TrimSuffix(TrimPrefix(urlPath, ApiSharePrefix), "/"), "/")
  }

  /** Every token the service hands out is found again in the URL that
      deletes it, with or without a trailing '/'. */
  lemma ShareHashOfToken(token: string)
    requires token != [] && Codecs.AllBase64Url(token)
    ensures ShareHash(ApiSharePrefix + "/" + token) == token
    ensures ShareHash(ApiSharePrefix + "/" + token + "/") == token
  {
    assert !HasSuffix("/" + token, "/") by {
      assert ("/" + token)[|token|] == token[|token| - 1];
      assert token[|token| - 1] in token;
    }
    assert ApiSharePrefix + "/" + token == ApiSharePrefix + ("/" + token + "");
    ShareHashOfRest(token, "");
    assert ApiSharePrefix + "/" + token + "/" == ApiSharePrefix + ("/" + token + "/");
    ShareHashOfRest(token, "/");
  }

  /** The hash of the URL whose text after the prefix is '/', the hash, then
      `trail`. */
  lemma ShareHashOfRest(token: string, trail: string)
    requires !HasSuffix("/" + token, "/") && (trail == "" || trail == "/")
    ensures ShareHash(ApiSharePrefix + ("/" + token + trail)) == token
  {
    var rest := "/" + token + trail;
    assert (ApiSharePrefix + rest)[|ApiSharePrefix|..] == rest;
    assert rest[..|rest| - |trail|] == "/" + token;
  }

  // ---------------------------------------------------------------------
  // The handlers over the store.
  // ---------------------------------------------------------------------

  lemma ExpiredHashesAppend(links: seq<ShareLink>, link: ShareLink, now: int)
    ensures ExpiredHashes(links + [link], now)
            == ExpiredHashes(links, now) + (if Expired(link, now) then {link.hash} else {})
  {
    var lhs := ExpiredHashes(links + [link], now);
    var rhs := ExpiredHashes(links, now) + (if Expired(link, now) then {link.hash} else {});
    forall h | h in lhs ensures h in rhs {
      var l :| l in links + [link] && Expired(l, now) && l.hash == h;
      if l != link {
        assert l in links;
      }
    }
    forall h | h in rhs ensures h in lhs {
      if h in ExpiredHashes(links, now) {
        var l :| l in links && Expired(l, now) && l.hash == h;
        assert l in links + [link];
      } else {
        assert link in links + [link];
      }
    }
  }

  /** One step of the sweep loop, for the kept links. */
  lemma SweepStep(links: seq<ShareLink>, i: nat, now: int)
    requires i < |links|
    ensures Unexpired(links[..i + 1], now)
            == Unexpired(links[..i], now) + (if Expired(links[i], now) then [] else [links[i]])
  {
    assert links[..i + 1] == links[..i] + [links[i]];
    UnexpiredAppend(links[..i], [links[i]], now);
    assert [links[i]][1..] == [];
  }

  lemma MinusUnion(m: map<string, ShareLink>, a: set<string>, b: set<string>)
    ensures m - (a + b) == (m - a) - b
  {
  }

  /** The store after the hash of every expired link of `links` is deleted
      from it, one link after the other, where the deletion of a hash in
      `failing` fails and leaves the store as it was: the store without the
      expired hashes that do not fail. */
  function DeleteExpired(store: map<string, ShareLink>, links: seq<ShareLink>, now: int, failing: set<string>)
    : (m: map<string, ShareLink>)
    ensures m == store - (ExpiredHashes(links, now) - failing)
    decreases |links|
  {
    if links == [] then store
    else
      var init, last := links[..|links| - 1], links[|links| - 1];
      var m := DeleteExpired(store, init, now, failing);
      assert links == init + [last];
      ExpiredHashesAppend(init, last, now);
      var step := if Expired(last, now) && last.hash !in failing then {last.hash} else {};
      assert ExpiredHashes(links, now) - failing == (ExpiredHashes(init, now) - failing) + step;
      MinusUnion(store, ExpiredHashes(init, now) - failing, step);
      if Expired(last, now) && last.hash !in failing then m - {last.hash} else m
  }

  /** Deleting the hashes of the expired links of a path, when those links
      are exactly the path's stored links, is the sweep of that path. */
  lemma SweepByHashes(store: map<string, ShareLink>, links: seq<ShareLink>, path: string, now: int,
                      failing: set<string>)
    requires forall h | h in store :: store[h].hash == h
    requires forall l :: l in links <==> l in store.Values && l.path == path
    ensures store - (ExpiredHashes(links, now) - failing) == SweptStore(store, path, now, failing)
  {
    var swept := SweptStore(store, path, now, failing);
    forall h ensures h in store - (ExpiredHashes(links, now) - failing) <==> h in swept {
      if h in store && store[h].path == path && Expired(store[h], now) {
        assert store[h] in store.Values;
        assert store[h] in links;
      }
      if h in ExpiredHashes(links, now) {
        var l :| l in links && Expired(l, now) && l.hash == h;
        assert l in store.Values;
      }
    }
  }

  class ShareEnv {
    /** The share store, by hash. */
    var store: map<string, ShareLink>
    /** The configured base URL of the service. */
    const baseURL: string

    /** Every link is stored under its own hash. */
    ghost predicate Valid()
      reads this
    {
      forall h | h in store :: store[h].hash == h
    }

    constructor (store: map<string, ShareLink>, baseURL: string)
      requires forall h | h in store :: store[h].hash == h
      ensures Valid() && this.store == store && this.baseURL == baseURL
    {
      this.store := store;
      this.baseURL := baseURL;
    }

    /** `Store.Share.GetByPath`: the links stored for a path, each once, in
        an order the store chooses. */
    method GetByPath(path: string) returns (links: seq<ShareLink>)
      requires Valid()
      ensures forall l :: l in links <==> l in store.Values && l.path == path
      ensures forall i, j | 0 <= i < j < |links| :: links[i].hash != links[j].hash
    {
      links := [];
      var pending := store.Keys;
      while pending != {}
        invariant pending <= store.Keys
        invariant forall l :: l in links <==> exists h | h in store.Keys - pending :: store[h] == l && l.path == path
        invariant forall l | l in links :: l.hash !in pending
        invariant forall i, j | 0 <= i < j < |links| :: links[i].hash != links[j].hash
        decreases pending
      {
        var h :| h in pending;
        if store[h].path == path {
          links := links + [store[h]];
        }
        pending := pending - {h};
      }
    }

    /** `Store.Share.GetPermanent`: a stored permanent link of the path, if
        there is one. */
    method GetPermanent(path: string) returns (link: Option<ShareLink>)
      requires Valid()
      ensures link.Some? <==> HasPermanent(store, path)
      ensures link.Some? ==> link.value.hash in store && store[link.value.hash] == link.value
      ensures link.Some? ==> link.value.path == path && !link.value.expires
    {
      if HasPermanent(store, path) {
        var h :| h in store && store[h].path == path && !store[h].expires;
        link := Some(store[h]);
      } else {
        link := None;
      }
    }

    /** `shareGetHandler`, with the sweep doing what it is meant to: every
        expired link of the path is deleted from the store and left out of
        the listing, every other link of the path is listed. `backendFails`
        is a store error other than "not found"; `deleteFails` are the hashes
        whose deletion fails, which the handler ignores. */
    method List(r: Request, user: User, check: RuleCheck, now: int, backendFails: bool, deleteFails: set<string>)
      returns (resp: Response<ShareBody>)
      requires Valid()
      modifies this
      ensures Valid()
      ensures var t := ShareTarget(r, user, check);
              if t.Err? then
                resp == StatusOnly(StatusForbidden) && store == old(store)
              else if backendFails then
                resp == StatusOnly(StatusInternalServerError) && store == old(store)
              else if !(exists h | h in old(store) :: old(store)[h].path == t.value) then
                resp == Response(StatusOK, Some(Links([])), map[], []) && store == old(store)
              else
                && resp.status == StatusOK && resp.body.Some? && resp.body.value.Links?
                && (forall l :: l in resp.body.value.links <==>
                      l in old(store).Values && l.path == t.value && !Expired(l, now))
                && store == SweptStore(old(store), t.value, now, deleteFails)
    {
      var t := ShareTarget(r, user, check);
      if t.Err? {
        return StatusOnly(t.error);
      }
      var path := t.value;
      if backendFails {
        return StatusOnly(StatusInternalServerError);
      }
      var links := GetByPath(path);
      if links == [] {
        return Response(StatusOK, Some(Links([])), map[], []);
      }
      var kept := Sweep(links, now, deleteFails);
      SweepByHashes(old(store), links, path, now, deleteFails);
      resp := Response(StatusOK, Some(Links(kept)), map[], []);
    }

    /** The sweep loop of `shareGetHandler`: each expired link is deleted
        from the store, unless its deletion fails (its hash is in `failing`),
        which is ignored; each other link is kept, in order. */
    method Sweep(links: seq<ShareLink>, now: int, failing: set<string>) returns (kept: seq<ShareLink>)
      requires Valid()
      modifies this
      ensures Valid()
      ensures kept == Unexpired(links, now)
      ensures store == DeleteExpired(old(store), links, now, failing)
    {
      kept := [];
      var i := 0;
      while i < |links|
        invariant 0 <= i <= |links|
        invariant kept == Unexpired(links[..i], now)
        invariant store == DeleteExpired(old(store), links[..i], now, failing)
      {
        var link := links[i];
        SweepStep(links, i, now);
        assert links[..i + 1][..i] == links[..i];
        if Expired(link, now) {
          if link.hash !in failing {
            store := store - {link.hash};
          }
        } else {
          kept := kept + [link];
        }
        i := i + 1;
      }
      assert links[..i] == links;
    }

    /** `sharePostHandler`. Without `expires`, an existing permanent link of
        the path is reused and its URL returned, with nothing saved.
        Otherwise a new link with the token of `random` (None: the random
        source failed) is saved; `saveFails` is a store error. */
    method Create(r: Request, user: User, check: RuleCheck, now: int, random: Option<seq<byte>>, saveFails: bool)
      returns (resp: Response<ShareBody>)
      requires Valid()
      requires random.Some? ==> |random.value| == 6
      modifies this
      ensures Valid()
      ensures var t := ShareTarget(r, user, check);
              var expire := QueryGet(r, "expires");
              if t.Err? then
                resp == StatusOnly(StatusForbidden) && store == old(store)
              else if expire == "" && HasPermanent(old(store), t.value) then
                && store == old(store)
                && exists h | h in old(store) && old(store)[h].path == t.value && !old(store)[h].expires ::
                     resp == Response(StatusOK, Some(Text(baseURL + "/share/" + h)), map[], [])
              else if random.None? then
                resp == StatusOnly(StatusInternalServerError) && store == old(store)
              else
                var link := NewShareLink(t.value, NewToken(random.value), expire, QueryGet(r, "unit"), now);
                if link.None? || saveFails then
                  resp == StatusOnly(StatusInternalServerError) && store == old(store)
                else
                  && store == old(store)[link.value.hash := link.value]
                  && resp == Response(StatusOK, Some(Link(link.value)), map[], [])
    {
      var t := ShareTarget(r, user, check);
      if t.Err? {
        return StatusOnly(t.error);
      }
      var path := t.value;
      var expire := QueryGet(r, "expires");
      var unit := QueryGet(r, "unit");
      if expire == "" {
        var permanent := GetPermanent(path);
        if permanent.Some? {
          return Response(StatusOK, Some(Text(baseURL + "/share/" + permanent.value.hash)), map[], []);
        }
      }
      if random.None? {
        return StatusOnly(StatusInternalServerError);
      }
      var token := NewToken(random.value);
      var link := NewShareLink(path, token, expire, unit, now);
      if link.None? {
        return StatusOnly(StatusInternalServerError);
      }
      if saveFails {
        return StatusOnly(StatusInternalServerError);
      }
      store := store[link.value.hash := link.value];
      resp := Response(StatusOK, Some(Link(link.value)), map[], []);
    }

    /** `shareDeleteHandler`: only the share permission is checked, the rules
        are not consulted; an empty hash is answered with no store call. */
    method Delete(r: Request, user: User, deleteFails: bool) returns (resp: Response<ShareBody>)
      requires Valid()
      modifies this
      ensures Valid()
      ensures var hash := ShareHash(r.urlPath);
              if !user.perm.share then
                resp == StatusOnly(StatusForbidden) && store == old(store)
              else if hash == "" then
                resp == StatusOnly(StatusOK) && store == old(store)
              else if deleteFails then
                resp == StatusOnly(StatusInternalServerError) && store == old(store)
              else
                resp == StatusOnly(StatusOK) && store == old(store) - {hash}
    {
      if !user.perm.share {
        return StatusOnly(StatusForbidden);
      }
      var hash := ShareHash(r.urlPath);
      if hash == "" {
        return StatusOnly(StatusOK);
      }
      if deleteFails {
        return StatusOnly(StatusInternalServerError);
      }
      store := store - {hash};
      resp := StatusOnly(StatusOK);
    }
  }
}
