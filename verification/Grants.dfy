/** Time-limited grants: kept to the second, checked against a clock in nanoseconds. */
module Grants {
  import opened Options

  const SECOND := 1_000_000_000

  /** Durations in nanoseconds; the hash of a grant key; what a duration string parses to. */
  datatype Config = Config(
    grantDefaultDuration: int, grantMaxDuration: int,
    parseDuration: string -> Option<int>, sha512: string -> string)

  /** The Unix second of a moment; for moments before 1970 it is rounded down as well. */
  function Unix(moment: int): int {
    moment / SECOND
  }

  function GetGrantKey(cfg: Config, sessionID: string, token: string, grantType: string): string {
    cfg.sha512(sessionID + token + grantType)
  }

  /** How long a requested grant lasts, if it may be set. */
  function AllowedDuration(cfg: Config, custom: string): Option<int> {
    if custom == "" then Some(cfg.grantDefaultDuration)
    else
      var parsed := cfg.parseDuration(custom);
      if parsed.None? || parsed.value > cfg.grantMaxDuration then None else parsed
  }

  class GrantService {
    const cfg: Config
    /** The grant store: the expiry second under each key. */
    var kv: map<string, int>
    var successes: nat
    var failures: nat

    constructor (cfg: Config)
      ensures this.cfg == cfg && kv == map[] && successes == failures == 0
    {
      this.cfg := cfg;
      kv, successes, failures := map[], 0, 0;
    }

    method GetGrantDuration(custom: string, now: int) returns (expiry: Option<int>)
      ensures expiry ==
        if AllowedDuration(cfg, custom).None? then None else Some(Unix(now + AllowedDuration(cfg, custom).value))
      ensures custom == "" ==> expiry == Some((now + cfg.grantDefaultDuration) / 1_000_000_000)
      ensures custom != "" ==> (expiry.Some? <==>
        cfg.parseDuration(custom).Some? && cfg.parseDuration(custom).value <= cfg.grantMaxDuration)
      ensures custom != "" && expiry.Some? ==>
        expiry == Some((now + cfg.parseDuration(custom).value) / 1_000_000_000)
    {
      if custom == "" { return Some(Unix(now + cfg.grantDefaultDuration)); }
      var parsed := cfg.parseDuration(custom);
      if parsed.None? { return None; }
      if parsed.value > cfg.grantMaxDuration { return None; }
      return Some(Unix(now + parsed.value));
    }

    /** The store write may fail; success is counted before it, failure whenever an error is returned. */
    method SetTokenGrantForSession(token: string, sessionID: string, grantType: string, custom: string, now: int,
        storeOk: bool)
      returns (ok: bool)
      modifies this
      ensures ok <==> AllowedDuration(cfg, custom).Some? && storeOk
      ensures kv == After(cfg, old(kv), Set(token, sessionID, grantType, custom, now, storeOk))
      ensures !ok ==> kv == old(kv)
      ensures ok && custom == "" ==>
        kv == old(kv)[cfg.sha512(sessionID + token + grantType) := (now + cfg.grantDefaultDuration) / 1_000_000_000]
      ensures ok && custom != "" ==>
        && cfg.parseDuration(custom).Some?
        && var expiry := (now + cfg.parseDuration(custom).value) / 1_000_000_000;
           kv == old(kv)[cfg.sha512(sessionID + token + grantType) := expiry]
      ensures successes == old(successes) + (if AllowedDuration(cfg, custom).Some? then 1 else 0)
      ensures failures == old(failures) + (if ok then 0 else 1)
    {
      var grantExpiry := GetGrantDuration(custom, now);
      if grantExpiry.None? {
        failures := failures + 1;
        return false;
      }
      var grantKey := GetGrantKey(cfg, sessionID, token, grantType);
      successes := successes + 1;
      ok := storeOk;
      if ok { kv := kv[grantKey := grantExpiry.value]; } else { failures := failures + 1; }
    }

    /** The store read may fail, which is answered like a missing grant. */
    method ValidTokenGrantExistsForSession(token: string, sessionID: string, grantType: string, now: int, storeOk: bool)
      returns (valid: bool)
      ensures valid <==> storeOk && Valid(kv, GetGrantKey(cfg, sessionID, token, grantType), now)
      ensures var key := cfg.sha512(sessionID + token + grantType);
        valid <==> storeOk && key in kv && now <= kv[key] * 1_000_000_000
    {
      var grantKey := GetGrantKey(cfg, sessionID, token, grantType);
      if !storeOk { return false; }
      if grantKey !in kv { return false; }
      var expiryTime := kv[grantKey] * SECOND;
      if now > expiryTime { return false; }
      return true;
    }
  }

  predicate Valid(kv: map<string, int>, key: string, now: int) {
    key in kv && now <= kv[key] * SECOND
  }

  // ----- whole runs -----

  datatype Event =
    | Set(token: string, sessionID: string, grantType: string, custom: string, now: int, storeOk: bool)
    | Verify(token: string, sessionID: string, grantType: string, now: int)

  function KeyOf(cfg: Config, e: Event): string {
    GetGrantKey(cfg, e.sessionID, e.token, e.grantType)
  }

  predicate Granted(cfg: Config, e: Event) {
    e.Set? && e.storeOk && AllowedDuration(cfg, e.custom).Some?
  }

  function After(cfg: Config, kv: map<string, int>, e: Event): map<string, int> {
    if Granted(cfg, e) then kv[KeyOf(cfg, e) := Unix(e.now + AllowedDuration(cfg, e.custom).value)] else kv
  }

  function Store(cfg: Config, events: seq<Event>): map<string, int> {
    if events == [] then map[] else After(cfg, Store(cfg, events[..|events| - 1]), events[|events| - 1])
  }

  /** The event at i is the last one that granted anything under the key. */
  ghost predicate LatestGrant(cfg: Config, events: seq<Event>, key: string, i: nat) {
    && i < |events| && Granted(cfg, events[i]) && KeyOf(cfg, events[i]) == key
    && forall j :: i < j < |events| && Granted(cfg, events[j]) ==> KeyOf(cfg, events[j]) != key
  }

  ghost predicate NeverGranted(cfg: Config, events: seq<Event>, key: string) {
    forall j :: 0 <= j < |events| && Granted(cfg, events[j]) ==> KeyOf(cfg, events[j]) != key
  }

  /** The store holds for each key the expiry of its latest grant and nothing for other keys. */
  lemma {:induction false} LatestDecides(cfg: Config, events: seq<Event>, key: string, i: nat)
    requires LatestGrant(cfg, events, key, i)
    ensures key in Store(cfg, events)
    ensures Store(cfg, events)[key] == Unix(events[i].now + AllowedDuration(cfg, events[i].custom).value)
  {
    if i < |events| - 1 {
      LatestDecides(cfg, events[..|events| - 1], key, i);
    }
  }

  lemma {:induction false} StoredIffGranted(cfg: Config, events: seq<Event>, key: string)
    ensures key !in Store(cfg, events) <==> NeverGranted(cfg, events, key)
  {
    if events != [] {
      var n := |events| - 1;
      StoredIffGranted(cfg, events[..n], key);
      assert NeverGranted(cfg, events, key) <==>
        NeverGranted(cfg, events[..n], key) && !(Granted(cfg, events[n]) && KeyOf(cfg, events[n]) == key);
    }
  }

  /** Verification answers true exactly when the key was granted and now is at most
      the second its latest grant ends in, rounded down. */
  lemma {:induction false} ValidExactly(cfg: Config, events: seq<Event>, key: string, now: int)
    ensures Valid(Store(cfg, events), key, now) <==>
      exists i: nat :: LatestGrant(cfg, events, key, i)
        && now <= Unix(events[i].now + AllowedDuration(cfg, events[i].custom).value) * SECOND
  {
    StoredIffGranted(cfg, events, key);
    if key in Store(cfg, events) {
      var i := FindLatest(cfg, events, key);
      LatestDecides(cfg, events, key, i);
    }
    forall i: nat | LatestGrant(cfg, events, key, i)
      ensures key in Store(cfg, events)
        && Store(cfg, events)[key] == Unix(events[i].now + AllowedDuration(cfg, events[i].custom).value)
    {
      LatestDecides(cfg, events, key, i);
    }
  }

  lemma {:induction false} FindLatest(cfg: Config, events: seq<Event>, key: string) returns (i: nat)
    requires !NeverGranted(cfg, events, key)
    ensures LatestGrant(cfg, events, key, i)
  {
    var n := |events| - 1;
    if Granted(cfg, events[n]) && KeyOf(cfg, events[n]) == key {
      i := n;
    } else {
      assert !NeverGranted(cfg, events[..n], key);
      i := FindLatest(cfg, events[..n], key);
    }
  }

  /** A grant never outlives its duration and loses less than a second of it; one asked for with its own
      duration lasts no longer than the configured maximum. */
  lemma {:induction false} GrantTiming(cfg: Config, events: seq<Event>, i: nat, now: int)
    requires i < |events| && LatestGrant(cfg, events, KeyOf(cfg, events[i]), i)
    ensures var ends := events[i].now + AllowedDuration(cfg, events[i].custom).value;
      && (Valid(Store(cfg, events), KeyOf(cfg, events[i]), now) ==> now <= ends)
      && (now <= ends - SECOND + 1 ==> Valid(Store(cfg, events), KeyOf(cfg, events[i]), now))
    ensures events[i].custom != "" && Valid(Store(cfg, events), KeyOf(cfg, events[i]), now) ==>
      now <= events[i].now + cfg.grantMaxDuration
  {
    LatestDecides(cfg, events, KeyOf(cfg, events[i]), i);
    UnixRoundsDown(events[i].now + AllowedDuration(cfg, events[i].custom).value);
  }

  lemma UnixRoundsDown(moment: int)
    ensures moment - SECOND < Unix(moment) * SECOND <= moment
  {
  }

  /** With a clock that does not run backwards a grant that has expired stays expired until it is granted again. */
  lemma {:induction false} ExpiredStaysExpired(cfg: Config, events: seq<Event>, more: seq<Event>, key: string,
      now: int, later: int)
    requires now <= later && !Valid(Store(cfg, events), key, now)
    requires NeverGranted(cfg, more, key)
    ensures !Valid(Store(cfg, events + more), key, later)
  {
    if more == [] {
      assert events + more == events;
    } else {
      var init := more[..|more| - 1];
      assert (events + more)[..|events + more| - 1] == events + init;
      ExpiredStaysExpired(cfg, events, init, key, now, later);
      StoreUntouched(cfg, events, more, key);
    }
  }

  lemma StoreUntouched(cfg: Config, events: seq<Event>, more: seq<Event>, key: string)
    requires more != [] && NeverGranted(cfg, more, key)
    ensures key in Store(cfg, events + more) <==> key in Store(cfg, events + more[..|more| - 1])
    ensures key in Store(cfg, events + more) ==>
      Store(cfg, events + more)[key] == Store(cfg, events + more[..|more| - 1])[key]
  {
    assert (events + more)[..|events + more| - 1] == events + more[..|more| - 1];
    assert (events + more)[|events + more| - 1] == more[|more| - 1];
  }

  // ----- grants of a session to a token -----

  /** The first session continued by the beginning of its token is the second session. */
  predicate RunsInto(sessionID: string, token: string, otherSession: string, otherToken: string) {
    sessionID <= otherSession && token == otherSession[|sessionID|..] + otherToken
  }

  /** The hash does not give the same for these two. */
  ghost predicate ToldApart(cfg: Config, x: string, y: string) {
    x != y ==> cfg.sha512(x) != cfg.sha512(y)
  }

  lemma RunIntoIsEqual(s1: string, t1: string, s2: string, t2: string)
    requires RunsInto(s1, t1, s2, t2)
    ensures s1 + t1 == s2 + t2
  {
    assert s2 == s1 + s2[|s1|..];
    assert s1 + (s2[|s1|..] + t2) == s1 + s2[|s1|..] + t2;
  }

  lemma EqualRunsInto(s1: string, t1: string, s2: string, t2: string)
    requires s1 + t1 == s2 + t2 && |s1| <= |s2|
    ensures RunsInto(s1, t1, s2, t2)
  {
    assert (s1 + t1)[..|s1|] == s1 && (s2 + t2)[..|s1|] == s2[..|s1|];
    assert (s1 + t1)[|s1|..] == t1 && (s2 + t2)[|s1|..] == s2[|s1|..] + t2;
  }

  lemma SameBeforeEnd(x: string, y: string, end: string)
    ensures x + end == y + end <==> x == y
  {
    if x + end == y + end {
      assert |x| == |y| && (x + end)[..|x|] == x && (y + end)[..|y|] == y;
    }
  }

  /** Nothing stands between session and token in what is hashed: two pairs share a grant of one type exactly when
      one session is the other one continued by what the other token begins with. */
  lemma SharedKeyIff(cfg: Config, s1: string, t1: string, s2: string, t2: string, grantType: string)
    requires ToldApart(cfg, s1 + t1 + grantType, s2 + t2 + grantType)
    ensures GetGrantKey(cfg, s1, t1, grantType) == GetGrantKey(cfg, s2, t2, grantType)
      <==> RunsInto(s1, t1, s2, t2) || RunsInto(s2, t2, s1, t1)
  {
    hide RunsInto;
    SameBeforeEnd(s1 + t1, s2 + t2, grantType);
    if RunsInto(s1, t1, s2, t2) { RunIntoIsEqual(s1, t1, s2, t2); }
    if RunsInto(s2, t2, s1, t1) { RunIntoIsEqual(s2, t2, s1, t1); }
    if s1 + t1 == s2 + t2 {
      if |s1| <= |s2| { EqualRunsInto(s1, t1, s2, t2); } else { EqualRunsInto(s2, t2, s1, t1); }
    }
  }

  /** Session "s1" with token "23" and session "s" with token "123" share every grant. */
  lemma SessionRunsIntoToken(cfg: Config, grantType: string)
    ensures GetGrantKey(cfg, "s1", "23", grantType) == GetGrantKey(cfg, "s", "123", grantType)
  {
    assert "s1" + "23" == "s" + "123";
  }

  /** Tokens of one length tell their sessions apart. */
  lemma TokensOfOneLength(cfg: Config, s1: string, t1: string, s2: string, t2: string, grantType: string)
    requires |t1| == |t2| && ToldApart(cfg, s1 + t1 + grantType, s2 + t2 + grantType)
    ensures GetGrantKey(cfg, s1, t1, grantType) == GetGrantKey(cfg, s2, t2, grantType) <==> s1 == s2 && t1 == t2
  {
    SharedKeyIff(cfg, s1, t1, s2, t2, grantType);
    if RunsInto(s1, t1, s2, t2) { NothingBetween(s1, t1, s2, t2); }
    if RunsInto(s2, t2, s1, t1) { NothingBetween(s2, t2, s1, t1); }
  }

  lemma NothingBetween(s1: string, t1: string, s2: string, t2: string)
    requires RunsInto(s1, t1, s2, t2) && |t1| == |t2|
    ensures s1 == s2 && t1 == t2
  {
    assert s2[|s1|..] == "" && s2 == s1 + s2[|s1|..];
  }

  predicate IsGrantTo(e: Event, sessionID: string, token: string) {
    e.sessionID == sessionID && e.token == token
  }

  /** The event at i is the last one that granted the session anything for the token. */
  ghost predicate LatestGrantTo(cfg: Config, events: seq<Event>, sessionID: string, token: string, i: nat) {
    && i < |events| && Granted(cfg, events[i]) && IsGrantTo(events[i], sessionID, token)
    && forall j :: i < j < |events| && Granted(cfg, events[j]) ==> !IsGrantTo(events[j], sessionID, token)
  }

  /** With tokens of one length and one type of grant, as the program makes them, a session may use a token exactly
      until the second in which the latest grant to this session for this token ends. */
  lemma ValidExactlyForSession(cfg: Config, events: seq<Event>, sessionID: string, token: string, grantType: string,
      now: int)
    requires forall e :: e in events ==>
      && |e.token| == |token| && e.grantType == grantType
      && ToldApart(cfg, e.sessionID + e.token + grantType, sessionID + token + grantType)
    ensures Valid(Store(cfg, events), GetGrantKey(cfg, sessionID, token, grantType), now) <==>
      exists i: nat :: LatestGrantTo(cfg, events, sessionID, token, i)
        && now <= Unix(events[i].now + AllowedDuration(cfg, events[i].custom).value) * SECOND
  {
    hide Valid, Store, GetGrantKey, AllowedDuration, Unix, ToldApart;
    var key := GetGrantKey(cfg, sessionID, token, grantType);
    forall e | e in events ensures KeyOf(cfg, e) == key <==> IsGrantTo(e, sessionID, token) {
      TokensOfOneLength(cfg, e.sessionID, e.token, sessionID, token, grantType);
    }
    forall i: nat ensures LatestGrant(cfg, events, key, i) <==> LatestGrantTo(cfg, events, sessionID, token, i) {
      SameLatest(cfg, events, key, sessionID, token, i);
    }
    ValidExactly(cfg, events, key, now);
  }

  lemma SameLatest(cfg: Config, events: seq<Event>, key: string, sessionID: string, token: string, i: nat)
    requires forall e :: e in events ==> (KeyOf(cfg, e) == key <==> IsGrantTo(e, sessionID, token))
    ensures LatestGrant(cfg, events, key, i) <==> LatestGrantTo(cfg, events, sessionID, token, i)
  {
    hide KeyOf, Granted, IsGrantTo;
  }
}
