/** Key entries of a container: sealing keys for users, opening and checking one's own entries. */
module KeyProvider {
  import opened EndpointUtils

  const VERSION_1 := 1
  const VERSION_2 := 2

  datatype EncKey = EncKey(id: string, key: string)

  datatype EncKeyLocation = EncKeyLocation(contextId: string, resourceId: string)

  datatype DataIntegrityObject = DataIntegrityObject(creatorUserId: string, creatorPubKey: string, contextId: string,
                                                     resourceId: string, timestamp: int, randomId: string)

  /** A key encrypted for the holder of one public key, with its signed description; `Unreadable` is anything else. */
  datatype KeyData =
    | Sealed(forPubKey: string, key: EncKey, keySecret: string, secretHash: string, dio: DataIntegrityObject)
    | Unreadable

  datatype KeyEntrySet = KeyEntrySet(user: string, keyId: string, data: KeyData)

  datatype Status = Valid | UnknownVersion | CannotDecrypt | WrongContainer | Duplicated

  datatype DecryptedEncKey = DecryptedEncKey(id: string, key: string, dio: DataIntegrityObject, keySecret: string,
                                             secretHash: string, dataStructureVersion: int, statusCode: Status)

  const NO_DIO := DataIntegrityObject("", "", "", "", 0, "")

  /** The provider of one user: his public key stands for the private key it belongs to. */
  datatype Provider = Provider(pubKey: string, hmacSha256: (string, string) -> string) {
    function SecretHash(keySecret: string, location: EncKeyLocation, containerSecret: string): string {
      hmacSha256(containerSecret, keySecret + location.contextId + location.resourceId)
    }

    /** `e` gives `key` to `user`. The key secret is random; the hash ties it to the container's secret. */
    ghost predicate EntryFor(e: KeyEntrySet, user: UserWithPubKey, key: EncKey, dio: DataIntegrityObject,
                             location: EncKeyLocation, containerSecret: string)
    {
      && e.user == user.userId && e.keyId == key.id
      && e.data.Sealed? && e.data.forPubKey == user.pubKey && e.data.key == key && e.data.dio == dio
      && e.data.secretHash == SecretHash(e.data.keySecret, location, containerSecret)
    }

    method CreateKeyEntrySet(user: UserWithPubKey, key: EncKey, dio: DataIntegrityObject, location: EncKeyLocation,
                             containerSecret: string) returns (e: KeyEntrySet)
      ensures EntryFor(e, user, key, dio, location, containerSecret)
    {
      var keySecret: string := *;
      e := KeyEntrySet(user.userId, key.id,
                       Sealed(user.pubKey, key, keySecret, SecretHash(keySecret, location, containerSecret), dio));
    }

    /** One entry for each user, in order. */
    method PrepareKeysList(users: seq<UserWithPubKey>, key: EncKey, dio: DataIntegrityObject, location: EncKeyLocation,
                           containerSecret: string) returns (result: seq<KeyEntrySet>)
      ensures |result| == |users|
      ensures forall i :: 0 <= i < |users| ==> EntryFor(result[i], users[i], key, dio, location, containerSecret)
    {
      result := [];
      for i := 0 to |users|
        invariant |result| == i
        invariant forall j :: 0 <= j < i ==> EntryFor(result[j], users[j], key, dio, location, containerSecret)
      {
        var e := CreateKeyEntrySet(users[i], key, dio, location, containerSecret);
        result := result + [e];
      }
    }

    /** The description that goes with an old key when it is passed on: that of the update, with the key's own
        random id; keys of the first version have none and get a fresh one. */
    ghost predicate PassedOn(oldKey: DecryptedEncKey, dio: DataIntegrityObject, with: DataIntegrityObject) {
      && with == dio.(randomId := with.randomId)
      && (oldKey.dataStructureVersion != VERSION_1 ==> with.randomId == oldKey.dio.randomId)
    }

    /** `e` passes one of the valid old keys on to one of the users. */
    ghost predicate PassesOn(e: KeyEntrySet, id: string, user: UserWithPubKey, missingKeys: map<string, DecryptedEncKey>,
                             dio: DataIntegrityObject, location: EncKeyLocation, containerSecret: string)
    {
      && id in missingKeys && missingKeys[id].statusCode == Valid && e.data.Sealed?
      && PassedOn(missingKeys[id], dio, e.data.dio)
      && EntryFor(e, user, EncKey(missingKeys[id].id, missingKeys[id].key), e.data.dio, location, containerSecret)
    }

    ghost predicate PassesOnSome(e: KeyEntrySet, missingKeys: map<string, DecryptedEncKey>, users: seq<UserWithPubKey>,
                                 dio: DataIntegrityObject, location: EncKeyLocation, containerSecret: string)
    {
      exists id, user :: user in users && PassesOn(e, id, user, missingKeys, dio, location, containerSecret)
    }

    ghost predicate PassedOnTo(result: seq<KeyEntrySet>, id: string, user: UserWithPubKey, missingKeys: map<string, DecryptedEncKey>,
                               dio: DataIntegrityObject, location: EncKeyLocation, containerSecret: string)
    {
      exists e :: e in result && PassesOn(e, id, user, missingKeys, dio, location, containerSecret)
    }

    /** Every valid old key for every one of the users, and nothing else. The source goes through the keys in
        the order of a hash map, so no order is promised. */
    method PrepareMissingKeysForNewUsers(missingKeys: map<string, DecryptedEncKey>, users: seq<UserWithPubKey>,
                                         dio: DataIntegrityObject, location: EncKeyLocation, containerSecret: string)
      returns (result: seq<KeyEntrySet>)
      ensures forall e :: e in result ==> PassesOnSome(e, missingKeys, users, dio, location, containerSecret)
      ensures forall id, user :: id in missingKeys && missingKeys[id].statusCode == Valid && user in users ==>
                PassedOnTo(result, id, user, missingKeys, dio, location, containerSecret)
    {
      result := [];
      var rest := missingKeys.Keys;
      while rest != {}
        invariant rest <= missingKeys.Keys
        invariant forall e :: e in result ==> PassesOnSome(e, missingKeys, users, dio, location, containerSecret)
        invariant forall id, user :: id in missingKeys && id !in rest && missingKeys[id].statusCode == Valid && user in users ==>
                    PassedOnTo(result, id, user, missingKeys, dio, location, containerSecret)
        decreases |rest|
      {
        var id :| id in rest;
        rest := rest - {id};
        var key := missingKeys[id];
        var randomId: string := *;
        var missingKeyDio := dio.(randomId := if key.dataStructureVersion == VERSION_1 then randomId else key.dio.randomId);
        if key.statusCode == Valid {
          var entries := PrepareKeysList(users, EncKey(key.id, key.key), missingKeyDio, location, containerSecret);
          PassOnAll(entries, id, missingKeys, users, missingKeyDio, dio, location, containerSecret);
          PassedOnMore(result, entries, missingKeys, dio, location, containerSecret);
          result := result + entries;
        }
      }
    }

    lemma PassOnAll(entries: seq<KeyEntrySet>, id: string, missingKeys: map<string, DecryptedEncKey>, users: seq<UserWithPubKey>,
                    with: DataIntegrityObject, dio: DataIntegrityObject, location: EncKeyLocation, containerSecret: string)
      requires id in missingKeys && missingKeys[id].statusCode == Valid && PassedOn(missingKeys[id], dio, with)
      requires |entries| == |users|
      requires forall i :: 0 <= i < |users| ==>
                 EntryFor(entries[i], users[i], EncKey(missingKeys[id].id, missingKeys[id].key), with, location, containerSecret)
      ensures forall e :: e in entries ==> PassesOnSome(e, missingKeys, users, dio, location, containerSecret)
      ensures forall user :: user in users ==> PassedOnTo(entries, id, user, missingKeys, dio, location, containerSecret)
    {
      forall e | e in entries ensures PassesOnSome(e, missingKeys, users, dio, location, containerSecret) {
        var i :| 0 <= i < |entries| && entries[i] == e;
        assert users[i] in users && PassesOn(e, id, users[i], missingKeys, dio, location, containerSecret);
      }
      forall user | user in users ensures PassedOnTo(entries, id, user, missingKeys, dio, location, containerSecret) {
        var i :| 0 <= i < |users| && users[i] == user;
        assert entries[i] in entries && PassesOn(entries[i], id, user, missingKeys, dio, location, containerSecret);
      }
    }

    lemma PassedOnMore(a: seq<KeyEntrySet>, b: seq<KeyEntrySet>, missingKeys: map<string, DecryptedEncKey>,
                       dio: DataIntegrityObject, location: EncKeyLocation, containerSecret: string)
      ensures forall id, user :: PassedOnTo(a, id, user, missingKeys, dio, location, containerSecret)
                                 || PassedOnTo(b, id, user, missingKeys, dio, location, containerSecret)
                                 ==> PassedOnTo(a + b, id, user, missingKeys, dio, location, containerSecret)
    {
      forall id, user | PassedOnTo(a, id, user, missingKeys, dio, location, containerSecret)
                        || PassedOnTo(b, id, user, missingKeys, dio, location, containerSecret)
        ensures PassedOnTo(a + b, id, user, missingKeys, dio, location, containerSecret)
      {
        var e :| (e in a || e in b) && PassesOn(e, id, user, missingKeys, dio, location, containerSecret);
        assert e in a + b;
      }
    }

    /** Whether all keys are valid and belong to the container with this secret. */
    method VerifyKeysSecret(decryptedKeys: map<string, DecryptedEncKey>, location: EncKeyLocation, containerSecret: string)
      returns (ok: bool)
      ensures ok <==> forall id :: id in decryptedKeys ==> HasSecret(decryptedKeys[id], location, containerSecret)
    {
      var rest := decryptedKeys.Keys;
      while rest != {}
        invariant rest <= decryptedKeys.Keys
        invariant forall id :: id in decryptedKeys && id !in rest ==> HasSecret(decryptedKeys[id], location, containerSecret)
        decreases |rest|
      {
        var id :| id in rest;
        rest := rest - {id};
        var key := decryptedKeys[id];
        var keySecretHash := hmacSha256(containerSecret, key.keySecret + location.contextId + location.resourceId);
        if key.statusCode != Valid || (key.dataStructureVersion == VERSION_2 && key.secretHash != keySecretHash) {
          return false;
        }
      }
      ok := true;
    }

    predicate HasSecret(key: DecryptedEncKey, location: EncKeyLocation, containerSecret: string) {
      && key.statusCode == Valid
      && (key.dataStructureVersion == VERSION_2 ==> key.secretHash == SecretHash(key.keySecret, location, containerSecret))
    }

    /** What one entry opens to under the user's private key. */
    function Decrypt(data: KeyData): DecryptedEncKey {
      match data
      case Unreadable => DecryptedEncKey("", "", NO_DIO, "", "", 0, UnknownVersion)
      case Sealed(forPubKey, key, keySecret, secretHash, dio) =>
        if forPubKey != pubKey || key.id == "" || key.key == ""
        then DecryptedEncKey("", "", dio, "", "", VERSION_2, CannotDecrypt)
        else DecryptedEncKey(key.id, key.key, dio, keySecret, secretHash, VERSION_2, Valid)
    }

    /** A key must say that it belongs to the container it was found in. */
    function CheckLocation(key: DecryptedEncKey, location: EncKeyLocation): DecryptedEncKey {
      if key.statusCode == Valid && key.dataStructureVersion == VERSION_2
         && (key.dio.contextId != location.contextId || key.dio.resourceId != location.resourceId)
      then key.(statusCode := WrongContainer)
      else key
    }

    function OpenAll(keys: map<string, KeyEntrySet>, location: EncKeyLocation): (r: map<string, DecryptedEncKey>)
      ensures r.Keys == keys.Keys
    {
      map id | id in keys :: CheckLocation(Decrypt(keys[id].data), location)
    }

    method DecryptAndVerifyKeys(keys: map<string, KeyEntrySet>, location: EncKeyLocation)
      returns (result: map<string, DecryptedEncKey>)
      ensures result == MarkDuplicates(OpenAll(keys, location))
    {
      result := map[];
      var rest := keys.Keys;
      while rest != {}
        invariant rest <= keys.Keys && result.Keys == keys.Keys - rest
        invariant forall id :: id in result ==> result[id] == CheckLocation(Decrypt(keys[id].data), location)
        decreases |rest|
      {
        var id :| id in rest;
        rest := rest - {id};
        result := result[id := CheckLocation(Decrypt(keys[id].data), location)];
      }
      assert result == OpenAll(keys, location);
      if |result| > 1 {
        result := VerifyForDuplication(result);
      } else {
        AtMostOne(result);
      }
    }
  }

  // ---- Duplicate detection ----

  /** Only valid keys with a creator are compared. */
  predicate Compared(key: DecryptedEncKey) {
    key.statusCode == Valid && key.dio.creatorPubKey != ""
  }

  function Nonce(key: DecryptedEncKey): (string, int) {
    (key.dio.randomId, key.dio.timestamp)
  }

  /** Another key of the container has the same random id and timestamp. */
  predicate HasTwin(keys: map<string, DecryptedEncKey>, id: string)
    requires id in keys
  {
    Compared(keys[id]) &&
    exists other :: other in keys && other != id && Compared(keys[other]) && Nonce(keys[other]) == Nonce(keys[id])
  }

  /** All twins are marked, and nothing else changes. */
  function MarkDuplicates(keys: map<string, DecryptedEncKey>): (r: map<string, DecryptedEncKey>)
    ensures r.Keys == keys.Keys
  {
    map id | id in keys :: if HasTwin(keys, id) then keys[id].(statusCode := Duplicated) else keys[id]
  }

  /** Marks twins in one pass over the map, in any order. */
  method VerifyForDuplication(decrypted: map<string, DecryptedEncKey>) returns (keys: map<string, DecryptedEncKey>)
    ensures keys == MarkDuplicates(decrypted)
  {
    keys := decrypted;
    var duplicateMap: map<(string, int), string> := map[];
    var rest := decrypted.Keys;
    NoneSeen(decrypted);
    while rest != {}
      invariant rest <= decrypted.Keys
      invariant Indexed(decrypted, rest, duplicateMap)
      invariant keys == MarkedSoFar(decrypted, rest)
      decreases |rest|
    {
      var id :| id in rest;
      keys, duplicateMap := CheckOne(keys, duplicateMap, id, decrypted, rest);
      rest := rest - {id};
    }
    AllSeen(decrypted);
  }

  /** Compares one more key with those seen before. */
  method CheckOne(marked: map<string, DecryptedEncKey>, index: map<(string, int), string>, id: string,
                  ghost decrypted: map<string, DecryptedEncKey>, ghost rest: set<string>)
    returns (keys: map<string, DecryptedEncKey>, duplicateMap: map<(string, int), string>)
    requires id in rest && rest <= decrypted.Keys && Indexed(decrypted, rest, index) && marked == MarkedSoFar(decrypted, rest)
    ensures Indexed(decrypted, rest - {id}, duplicateMap) && keys == MarkedSoFar(decrypted, rest - {id})
  {
    keys, duplicateMap := marked, index;
    UnseenUnmarked(decrypted, rest, id);
    if keys[id].statusCode != Valid || keys[id].dio.creatorPubKey == "" {
      NotCompared(decrypted, rest, id, index);
      return;
    }
    var n := (keys[id].dio.randomId, keys[id].dio.timestamp);
    if n in duplicateMap {
      var first := duplicateMap[n];
      TwinFound(decrypted, rest, id, first);
      StillIndexed(decrypted, rest, id, index);
      keys := keys[id := keys[id].(statusCode := Duplicated)];
      keys := keys[first := keys[first].(statusCode := Duplicated)];
    } else {
      NoTwinYet(decrypted, rest, id, duplicateMap);
      duplicateMap := duplicateMap[n := id];
    }
  }

  lemma StillIndexed(decrypted: map<string, DecryptedEncKey>, before: set<string>, id: string, duplicateMap: map<(string, int), string>)
    requires id in decrypted && id in before && Indexed(decrypted, before, duplicateMap)
    requires Compared(decrypted[id]) ==> Nonce(decrypted[id]) in duplicateMap
    ensures Indexed(decrypted, before - {id}, duplicateMap)
  {
    forall k | Seen(decrypted, before - {id}, k) ensures Nonce(decrypted[k]) in duplicateMap {
      if k != id { assert Seen(decrypted, before, k); }
    }
  }

  /** The index leads from a nonce to a key seen with it, for all nonces seen. */
  ghost predicate Indexed(decrypted: map<string, DecryptedEncKey>, rest: set<string>, duplicateMap: map<(string, int), string>) {
    && (forall n :: n in duplicateMap ==> Seen(decrypted, rest, duplicateMap[n]) && Nonce(decrypted[duplicateMap[n]]) == n)
    && (forall id :: Seen(decrypted, rest, id) ==> Nonce(decrypted[id]) in duplicateMap)
  }

  ghost predicate Seen(decrypted: map<string, DecryptedEncKey>, rest: set<string>, id: string) {
    id in decrypted && id !in rest && Compared(decrypted[id])
  }

  ghost predicate AreTwins(decrypted: map<string, DecryptedEncKey>, rest: set<string>, id: string, other: string) {
    Seen(decrypted, rest, id) && Seen(decrypted, rest, other) && id != other && Nonce(decrypted[id]) == Nonce(decrypted[other])
  }

  /** Twins among the keys seen so far. */
  ghost predicate TwinSeen(decrypted: map<string, DecryptedEncKey>, rest: set<string>, id: string) {
    exists other :: AreTwins(decrypted, rest, id, other)
  }

  ghost function MarkedSoFar(decrypted: map<string, DecryptedEncKey>, rest: set<string>): map<string, DecryptedEncKey> {
    map id | id in decrypted :: if TwinSeen(decrypted, rest, id) then decrypted[id].(statusCode := Duplicated) else decrypted[id]
  }

  lemma NoneSeen(decrypted: map<string, DecryptedEncKey>)
    ensures Indexed(decrypted, decrypted.Keys, map[]) && MarkedSoFar(decrypted, decrypted.Keys) == decrypted
  {
    forall id | id in decrypted ensures !TwinSeen(decrypted, decrypted.Keys, id) {
    }
  }

  lemma AllSeen(decrypted: map<string, DecryptedEncKey>)
    ensures MarkedSoFar(decrypted, {}) == MarkDuplicates(decrypted)
  {
    forall id | id in decrypted ensures TwinSeen(decrypted, {}, id) <==> HasTwin(decrypted, id) {
      if HasTwin(decrypted, id) {
        var other :| other in decrypted && other != id && Compared(decrypted[other]) && Nonce(decrypted[other]) == Nonce(decrypted[id]);
        assert AreTwins(decrypted, {}, id, other);
      }
      if TwinSeen(decrypted, {}, id) {
        var other :| AreTwins(decrypted, {}, id, other);
        assert Compared(decrypted[other]) && Nonce(decrypted[other]) == Nonce(decrypted[id]);
      }
    }
  }

  lemma UnseenUnmarked(decrypted: map<string, DecryptedEncKey>, rest: set<string>, id: string)
    requires id in decrypted && id in rest
    ensures MarkedSoFar(decrypted, rest)[id] == decrypted[id]
  {
  }

  lemma TwinFound(decrypted: map<string, DecryptedEncKey>, before: set<string>, id: string, first: string)
    requires id in decrypted && id in before && Compared(decrypted[id])
    requires Seen(decrypted, before, first) && Nonce(decrypted[first]) == Nonce(decrypted[id])
    ensures var marked := MarkedSoFar(decrypted, before);
            MarkedSoFar(decrypted, before - {id})
            == marked[id := marked[id].(statusCode := Duplicated)][first := marked[first].(statusCode := Duplicated)]
  {
    var rest := before - {id};
    assert AreTwins(decrypted, rest, id, first) && AreTwins(decrypted, rest, first, id);
    assert TwinSeen(decrypted, rest, id) && TwinSeen(decrypted, rest, first);
    forall k | k in decrypted && k != id && k != first
      ensures TwinSeen(decrypted, rest, k) <==> TwinSeen(decrypted, before, k)
    {
      if TwinSeen(decrypted, before, k) {
        var other :| AreTwins(decrypted, before, k, other);
        assert AreTwins(decrypted, rest, k, other);
      }
      if TwinSeen(decrypted, rest, k) {
        var other :| AreTwins(decrypted, rest, k, other);
        assert AreTwins(decrypted, before, k, if other == id then first else other);
      }
    }
  }

  /** A key without twins among those seen before changes nothing. */
  lemma NothingMarked(decrypted: map<string, DecryptedEncKey>, before: set<string>, id: string)
    requires id in decrypted && id in before
    requires forall k :: !AreTwins(decrypted, before - {id}, id, k)
    ensures MarkedSoFar(decrypted, before - {id}) == MarkedSoFar(decrypted, before)
  {
    var rest := before - {id};
    forall k | k in decrypted ensures TwinSeen(decrypted, rest, k) <==> TwinSeen(decrypted, before, k) {
      if TwinSeen(decrypted, before, k) {
        var other :| AreTwins(decrypted, before, k, other);
        assert AreTwins(decrypted, rest, k, other);
      }
      if TwinSeen(decrypted, rest, k) {
        var other :| AreTwins(decrypted, rest, k, other);
        assert !AreTwins(decrypted, rest, id, k) && !AreTwins(decrypted, rest, id, other);
        assert AreTwins(decrypted, before, k, other);
      }
    }
  }

  lemma NoTwinYet(decrypted: map<string, DecryptedEncKey>, before: set<string>, id: string, duplicateMap: map<(string, int), string>)
    requires id in decrypted && id in before && Compared(decrypted[id])
    requires Indexed(decrypted, before, duplicateMap) && Nonce(decrypted[id]) !in duplicateMap
    ensures MarkedSoFar(decrypted, before - {id}) == MarkedSoFar(decrypted, before)
    ensures Indexed(decrypted, before - {id}, duplicateMap[Nonce(decrypted[id]) := id])
  {
    var rest := before - {id};
    forall k ensures !AreTwins(decrypted, rest, id, k) {
      if AreTwins(decrypted, rest, id, k) { assert Seen(decrypted, before, k); }
    }
    NothingMarked(decrypted, before, id);
    forall k | Seen(decrypted, rest, k) ensures Nonce(decrypted[k]) in duplicateMap[Nonce(decrypted[id]) := id] {
      if k != id { assert Seen(decrypted, before, k); }
    }
  }

  lemma NotCompared(decrypted: map<string, DecryptedEncKey>, before: set<string>, id: string, duplicateMap: map<(string, int), string>)
    requires id in decrypted && id in before && !Compared(decrypted[id]) && Indexed(decrypted, before, duplicateMap)
    ensures MarkedSoFar(decrypted, before - {id}) == MarkedSoFar(decrypted, before)
    ensures Indexed(decrypted, before - {id}, duplicateMap)
  {
    NothingMarked(decrypted, before, id);
    StillIndexed(decrypted, before, id, duplicateMap);
  }

  lemma AtMostOne(keys: map<string, DecryptedEncKey>)
    requires |keys| <= 1
    ensures MarkDuplicates(keys) == keys
  {
    forall id, other | id in keys && other in keys ensures id == other {
      if id != other {
        assert {id, other} <= keys.Keys;
        SubsetSize({id, other}, keys.Keys);
      }
    }
  }

  lemma SubsetSize<T>(a: set<T>, b: set<T>)
    requires a <= b
    ensures |a| <= |b|
  {
    assert b == a + (b - a);
  }

  /** Keys that differ in their random ids are never marked. */
  lemma DistinctNotMarked(keys: map<string, DecryptedEncKey>)
    requires forall id, other :: id in keys && other in keys && id != other ==> keys[id].dio.randomId != keys[other].dio.randomId
    ensures MarkDuplicates(keys) == keys
  {
  }
}
