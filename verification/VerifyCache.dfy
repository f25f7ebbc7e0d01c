// Authentication with a memory of keys already verified.
module VerifyCache {
  // The slow check of a key against a stored hash, and the digest the memory is indexed by, are taken
  // as given functions.

  import opened Strings

  type KeyId = string

  const MARKER := "pmk_"
  const PREFIX_LENGTH := 8
  const CACHE_MAX := 4096
  const HOUR := 3600
  const NUL := 0 as char

  datatype User = User(id: string, name: string, team: string, admin: bool)
  datatype KeyRow = KeyRow(prefix: string, hash: string, user: User, revoked: bool)
  type Keys = map<KeyId, KeyRow>

  datatype Verification = Matches | Differs | Unreadable

  datatype Answer = Malformed | Unknown | Revoked | Broken | Welcome(key: KeyId, user: User)

  // ----- the answer without any memory -----

  function Prefix(plaintext: string): Option<string> {
    if |plaintext| <= PREFIX_LENGTH + 1 || plaintext[..|MARKER|] != MARKER || plaintext[PREFIX_LENGTH] != '_' then None
    else Some(plaintext[..PREFIX_LENGTH])
  }

  ghost predicate IsKeyFor(keys: Keys, prefix: string, k: KeyId) {
    k in keys && keys[k].prefix == prefix
  }

  /** The schema: prefixes are unique, and identifiers hold no NUL. */
  ghost predicate Schema(keys: Keys) {
    && (forall j, k :: j in keys && k in keys && keys[j].prefix == keys[k].prefix ==> j == k)
    && (forall k :: k in keys ==> Without(k, NUL))
  }

  ghost function AnswerOf(keys: Keys, k: KeyId, plaintext: string, verify: (string, string) -> Verification): Answer
    requires k in keys
  {
    if keys[k].revoked then Revoked
    else match verify(plaintext, keys[k].hash)
      case Unreadable => Broken
      case Differs => Unknown
      case Matches => Welcome(k, keys[k].user)
  }

  /** What a server that verifies every key every time would answer. */
  ghost predicate IsDirectAnswer(keys: Keys, plaintext: string, verify: (string, string) -> Verification,
                                 answer: Answer) {
    match Prefix(plaintext)
    case None => answer == Malformed
    case Some(prefix) =>
      if exists k :: IsKeyFor(keys, prefix, k)
      then exists k :: IsKeyFor(keys, prefix, k) && answer == AnswerOf(keys, k, plaintext, verify)
      else answer == Unknown
  }

  /** A key's prefix is its marker and four characters, when an underscore and more follow. */
  lemma PrefixExactlyWhen(plaintext: string, prefix: string)
    ensures Prefix(plaintext) == Some(prefix) <==>
      exists rest :: plaintext == prefix + "_" + rest && rest != "" && |prefix| == 8 && prefix[..4] == "pmk_"
  {
    if Prefix(plaintext) == Some(prefix) {
      assert plaintext == prefix + "_" + plaintext[9..];
      assert prefix[..4] == plaintext[..4];
    }
    if rest :| plaintext == prefix + "_" + rest && rest != "" && |prefix| == 8 && prefix[..4] == "pmk_" {
      assert plaintext[..4] == prefix[..4] && plaintext[..8] == prefix && plaintext[8] == '_';
    }
  }

  /** Each answer says what the table says: no such form, no such key or another secret, revoked, an unreadable hash,
      or the key's own user. */
  lemma AnswerSays(keys: Keys, plaintext: string, verify: (string, string) -> Verification, answer: Answer)
    requires Schema(keys) && IsDirectAnswer(keys, plaintext, verify, answer)
    ensures answer == Malformed <==> Prefix(plaintext) == None
    ensures forall k :: k in keys && Prefix(plaintext) == Some(keys[k].prefix) ==>
      && (answer == Revoked <==> keys[k].revoked)
      && (answer == Broken <==> !keys[k].revoked && verify(plaintext, keys[k].hash) == Unreadable)
      && (answer == Unknown <==> !keys[k].revoked && verify(plaintext, keys[k].hash) == Differs)
      && (answer == Welcome(k, keys[k].user) <==> !keys[k].revoked && verify(plaintext, keys[k].hash) == Matches)
    ensures Prefix(plaintext).Some? && (forall k :: k in keys ==> keys[k].prefix != Prefix(plaintext).value) ==>
      answer == Unknown
  {
    forall k | k in keys && Prefix(plaintext) == Some(keys[k].prefix)
      ensures answer == AnswerOf(keys, k, plaintext, verify)
    {
      assert IsKeyFor(keys, keys[k].prefix, k);
    }
  }

  lemma OneDirectAnswer(keys: Keys, plaintext: string, verify: (string, string) -> Verification, a: Answer, b: Answer)
    requires Schema(keys)
    requires IsDirectAnswer(keys, plaintext, verify, a) && IsDirectAnswer(keys, plaintext, verify, b)
    ensures a == b
  {
  }

  // ----- the memory -----

  ghost predicate NoCollisions(digest: string -> string) {
    forall a, b :: digest(a) == digest(b) ==> a == b
  }

  function Entry(k: KeyId, plaintext: string): string {
    k + [NUL] + plaintext
  }

  /** A key and a plaintext can be told from their entry. */
  lemma EntriesDiffer(j: KeyId, p: string, k: KeyId, q: string)
    requires Without(j, NUL) && Without(k, NUL) && Entry(j, p) == Entry(k, q)
    ensures j == k && p == q
  {
    NulComesAfter(j, p);
    NulComesAfter(k, q);
    assert |j| == |k|;
    assert j == Entry(j, p)[..|j|] && k == Entry(k, q)[..|k|];
    assert p == Entry(j, p)[|j| + 1..] && q == Entry(k, q)[|k| + 1..];
  }

  lemma NulComesAfter(k: KeyId, plaintext: string)
    requires Without(k, NUL)
    ensures |k| < |Entry(k, plaintext)| && Entry(k, plaintext)[|k|] == NUL
    ensures forall i :: 0 <= i < |k| ==> Entry(k, plaintext)[i] != NUL
  {
  }

  /** Every entry stands for a key in the table and a plaintext that matched its hash. */
  ghost predicate Remembers(seen: map<string, int>, keys: Keys, verify: (string, string) -> Verification,
                            digest: string -> string) {
    forall t :: t in seen ==> exists k, p :: k in keys && t == digest(Entry(k, p)) && verify(p, keys[k].hash) == Matches
  }

  class Authority {
    var keys: Keys
    var seen: map<string, int>
    const verify: (string, string) -> Verification
    const digest: string -> string

    ghost predicate Valid()
      reads this
    {
      Schema(keys) && |seen| <= CACHE_MAX && NoCollisions(digest) && Remembers(seen, keys, verify, digest)
    }

    constructor (verify: (string, string) -> Verification, digest: string -> string)
      requires NoCollisions(digest)
      ensures Valid() && keys == map[] && this.verify == verify && this.digest == digest
    {
      keys, seen := map[], map[];
      this.verify, this.digest := verify, digest;
    }

    /** A remembered entry means what checking the key would say. */
    lemma RememberedMatches(k: KeyId, plaintext: string)
      requires Valid() && k in keys && digest(Entry(k, plaintext)) in seen
      ensures verify(plaintext, keys[k].hash) == Matches
    {
      var j, p :| j in keys && digest(Entry(k, plaintext)) == digest(Entry(j, p)) && verify(p, keys[j].hash) == Matches;
      EntriesDiffer(k, plaintext, j, p);
    }

    method Authenticate(plaintext: string, now: int) returns (answer: Answer)
      requires Valid()
      modifies this`seen
      ensures Valid()
      ensures IsDirectAnswer(keys, plaintext, verify, answer)
    {
      var prefix := Prefix(plaintext);
      if prefix.None? {
        return Malformed;
      }
      if !exists k :: k in keys && keys[k].prefix == prefix.value {
        return Unknown;
      }
      var k :| k in keys && keys[k].prefix == prefix.value;
      assert IsKeyFor(keys, prefix.value, k);
      var row := keys[k];
      if row.revoked {
        return Revoked;
      }
      if digest(Entry(k, plaintext)) !in seen {
        match verify(plaintext, row.hash) {
          case Unreadable => return Broken;
          case Differs => return Unknown;
          case Matches => Add(k, plaintext, now);
        }
      } else {
        RememberedMatches(k, plaintext);
      }
      return Welcome(k, row.user);
    }

    method Add(k: KeyId, plaintext: string, now: int)
      requires Valid() && k in keys && verify(plaintext, keys[k].hash) == Matches
      modifies this`seen
      ensures Valid() && digest(Entry(k, plaintext)) in seen && |seen| <= 4096
      ensures |old(seen)| < 4096 ==> seen == old(seen)[digest(Entry(k, plaintext)) := now]
      ensures |old(seen)| >= 4096 && |Since(old(seen), {}, now - 3600)| < 4096 ==>
        seen == Since(old(seen), {}, now - 3600)[digest(Entry(k, plaintext)) := now]
      ensures |old(seen)| >= 4096 && |Since(old(seen), {}, now - 3600)| >= 4096 ==> |seen| <= 2048
    {
      var t := digest(Entry(k, plaintext));
      if |seen| >= CACHE_MAX {
        ForgetBefore(now - HOUR);
        if |seen| >= CACHE_MAX {
          ForgetHalf();
        }
      }
      RoomForOne(seen, t, now);
      StillRemembers(seen, keys, verify, digest, k, plaintext, now);
      seen := seen[t := now];
    }

    method ForgetBefore(cutoff: int)
      requires Valid()
      modifies this`seen
      ensures Valid()
      ensures seen == Since(old(seen), {}, cutoff)
      ensures forall t :: t in seen <==> t in old(seen) && old(seen)[t] >= cutoff
    {
      var entries := seen.Keys;
      assert seen == Since(seen, entries, cutoff);
      while entries != {}
        invariant entries <= seen.Keys && keys == old(keys)
        invariant seen == Since(old(seen), entries, cutoff)
        decreases entries
      {
        var t :| t in entries;
        SinceNext(old(seen), entries, t, cutoff);
        if seen[t] < cutoff {
          seen := seen - {t};
        }
        entries := entries - {t};
      }
      SomeRemembered(seen, old(seen), keys, verify, digest);
    }

    /** Forgets some entries, until fewer than half the maximum are left. */
    method ForgetHalf()
      requires Valid()
      modifies this`seen
      ensures Valid() && |seen| < 2048
      ensures IsPart(seen, old(seen))
    {
      while |seen| > 0
        invariant IsPart(seen, old(seen)) && keys == old(keys)
        decreases |seen|
      {
        var t :| t in seen;
        Fewer(seen, t);
        seen := seen - {t};
        if |seen| < CACHE_MAX / 2 {
          break;
        }
      }
      SomeRemembered(seen, old(seen), keys, verify, digest);
    }

    /** A new key with an identifier and a prefix not yet taken; otherwise the insertion fails. */
    method Issue(k: KeyId, row: KeyRow) returns (ok: bool)
      requires Valid() && Without(k, NUL)
      modifies this`keys
      ensures Valid()
      ensures keys == WithKey(old(keys), k, row) && ok == (keys != old(keys))
      ensures ok <==> k !in old(keys) && forall j :: j in old(keys) ==> old(keys)[j].prefix != row.prefix
      ensures ok ==> keys == old(keys)[k := row]
    {
      ok := k !in keys && !exists j :: j in keys && keys[j].prefix == row.prefix;
      if ok {
        IssuingKeeps(seen, keys, verify, digest, k, row);
        keys := keys[k := row];
      } else if k !in keys {
        assert exists j :: j in keys && IsKeyFor(keys, row.prefix, j);
      }
    }

    method Revoke(team: string, k: KeyId) returns (ok: bool)
      requires Valid()
      modifies this`keys
      ensures Valid()
      ensures keys == WithoutKey(old(keys), team, k) && ok == (keys != old(keys))
      ensures ok <==> k in old(keys) && old(keys)[k].user.team == team && !old(keys)[k].revoked
      ensures ok ==> keys == old(keys)[k := old(keys)[k].(revoked := true)]
    {
      ok := k in keys && keys[k].user.team == team && !keys[k].revoked;
      if ok {
        RevokingKeeps(seen, keys, verify, digest, team, k);
        keys := keys[k := keys[k].(revoked := true)];
        assert keys[k] != old(keys)[k];
      }
    }
  }

  /** The entries still to be looked at, and those not older than the cutoff. */
  function Since(seen: map<string, int>, entries: set<string>, cutoff: int): map<string, int> {
    map t | t in seen && (t in entries || seen[t] >= cutoff) :: seen[t]
  }

  lemma SinceNext(seen: map<string, int>, entries: set<string>, t: string, cutoff: int)
    requires t in entries && t in seen
    ensures Since(seen, entries - {t}, cutoff)
         == if seen[t] < cutoff then Since(seen, entries, cutoff) - {t} else Since(seen, entries, cutoff)
  {
  }

  ghost predicate IsPart(some: map<string, int>, seen: map<string, int>) {
    forall t :: t in some ==> t in seen && some[t] == seen[t]
  }

  /** Forgetting does no harm. */
  lemma SomeRemembered(some: map<string, int>, seen: map<string, int>, keys: Keys,
                       verify: (string, string) -> Verification, digest: string -> string)
    requires IsPart(some, seen) && Remembers(seen, keys, verify, digest)
    ensures Remembers(some, keys, verify, digest) && |some| <= |seen|
  {
    assert |some.Keys| <= |seen.Keys| by {
      assert seen.Keys == some.Keys + (seen.Keys - some.Keys);
    }
  }

  lemma Fewer(seen: map<string, int>, t: string)
    requires t in seen
    ensures |seen - {t}| == |seen| - 1
  {
    assert seen == (seen - {t})[t := seen[t]];
  }

  lemma StillRemembers(seen: map<string, int>, keys: Keys, verify: (string, string) -> Verification,
                       digest: string -> string,
                       k: KeyId, plaintext: string, now: int)
    requires Remembers(seen, keys, verify, digest) && k in keys && verify(plaintext, keys[k].hash) == Matches
    ensures Remembers(seen[digest(Entry(k, plaintext)) := now], keys, verify, digest)
  {
  }

  lemma SameHashesRemember(seen: map<string, int>, keys: Keys, more: Keys, verify: (string, string) -> Verification,
                           digest: string -> string)
    requires Remembers(seen, keys, verify, digest)
    requires forall k :: k in keys ==> k in more && more[k].hash == keys[k].hash
    ensures Remembers(seen, more, verify, digest)
  {
    forall t | t in seen
      ensures exists k, p :: k in more && t == digest(Entry(k, p)) && verify(p, more[k].hash) == Matches
    {
      var k, p :| k in keys && t == digest(Entry(k, p)) && verify(p, keys[k].hash) == Matches;
      assert k in more;
    }
  }

  lemma RevokingKeeps(seen: map<string, int>, keys: Keys, verify: (string, string) -> Verification,
                      digest: string -> string,
                      team: string, k: KeyId)
    requires Schema(keys) && Remembers(seen, keys, verify, digest)
    ensures Schema(WithoutKey(keys, team, k)) && Remembers(seen, WithoutKey(keys, team, k), verify, digest)
  {
    SameHashesRemember(seen, keys, WithoutKey(keys, team, k), verify, digest);
  }

  lemma IssuingKeeps(seen: map<string, int>, keys: Keys, verify: (string, string) -> Verification,
                     digest: string -> string,
                     k: KeyId, row: KeyRow)
    requires Schema(keys) && Remembers(seen, keys, verify, digest) && Without(k, NUL)
    ensures Schema(WithKey(keys, k, row)) && Remembers(seen, WithKey(keys, k, row), verify, digest)
  {
    var more := WithKey(keys, k, row);
    SameHashesRemember(seen, keys, more, verify, digest);
    forall a, b | a in more && b in more && more[a].prefix == more[b].prefix
      ensures a == b
    {
      assert a in keys ==> IsKeyFor(keys, more[a].prefix, a);
      assert b in keys ==> IsKeyFor(keys, more[b].prefix, b);
    }
  }

  lemma RoomForOne(seen: map<string, int>, t: string, now: int)
    ensures |seen[t := now]| <= |seen| + 1
  {
  }

  // ----- the table over a run -----

  ghost function WithKey(keys: Keys, k: KeyId, row: KeyRow): Keys {
    if k in keys || exists j :: IsKeyFor(keys, row.prefix, j) then keys else keys[k := row]
  }

  function WithoutKey(keys: Keys, team: string, k: KeyId): Keys {
    if k in keys && keys[k].user.team == team && !keys[k].revoked then keys[k := keys[k].(revoked := true)] else keys
  }

  datatype Change = Issuing(k: KeyId, row: KeyRow) | Revoking(team: string, k: KeyId)

  ghost function After(keys: Keys, changes: seq<Change>): Keys {
    if changes == [] then keys
    else
      var before := After(keys, changes[..|changes| - 1]);
      match changes[|changes| - 1]
      case Issuing(k, row) => WithKey(before, k, row)
      case Revoking(team, k) => WithoutKey(before, team, k)
  }

  /** Whatever is issued and revoked later, a revoked key stays revoked under its prefix. */
  lemma {:induction false} RevokedStaysRevoked(keys: Keys, changes: seq<Change>, k: KeyId)
    requires k in keys && keys[k].revoked
    ensures k in After(keys, changes) && After(keys, changes)[k] == keys[k]
  {
    if changes != [] {
      RevokedStaysRevoked(keys, changes[..|changes| - 1], k);
    }
  }

  lemma {:induction false} SchemaHolds(keys: Keys, changes: seq<Change>)
    requires Schema(keys)
    requires forall i :: 0 <= i < |changes| && changes[i].Issuing? ==> Without(changes[i].k, NUL)
    ensures Schema(After(keys, changes))
  {
    if changes != [] {
      var n := |changes| - 1;
      SchemaHolds(keys, changes[..n]);
      var before := After(keys, changes[..n]);
      var after := After(keys, changes);
      forall a, b | a in after && b in after && after[a].prefix == after[b].prefix
        ensures a == b
      {
        assert a in before ==> IsKeyFor(before, after[a].prefix, a);
        assert b in before ==> IsKeyFor(before, after[b].prefix, b);
      }
    }
  }

  /** Once a key is revoked, every later call with it is refused, whatever the memory holds. */
  lemma RevokedIsRefused(keys: Keys, changes: seq<Change>, team: string, k: KeyId, plaintext: string,
                         verify: (string, string) -> Verification, answer: Answer)
    requires Schema(keys) && k in keys && keys[k].user.team == team
    requires forall i :: 0 <= i < |changes| && changes[i].Issuing? ==> Without(changes[i].k, NUL)
    requires Prefix(plaintext) == Some(keys[k].prefix)
    requires IsDirectAnswer(After(WithoutKey(keys, team, k), changes), plaintext, verify, answer)
    ensures answer == Revoked
  {
    var revoked := WithoutKey(keys, team, k);
    RevokedStaysRevoked(revoked, changes, k);
    SchemaHolds(revoked, changes);
    assert IsKeyFor(After(revoked, changes), keys[k].prefix, k);
  }
}
