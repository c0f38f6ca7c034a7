/** The keys of a Store over its whole life: created once, updated by any members, with the server
    accumulating everyone's key entries. */
module StoreKeys {
  import opened Results
  import opened EndpointUtils
  import opened UsersKeysResolver
  import opened KeyProvider

  /** What does not change: each user's public key, and the hash function. */
  datatype World = World(directory: string -> string, hmacSha256: (string, string) -> string) {
    function ProviderOf(userId: string): Provider {
      Provider(directory(userId), hmacSha256)
    }

    ghost predicate Knows(users: seq<UserWithPubKey>) {
      forall a :: a in users ==> a.pubKey == directory(a.userId)
    }
  }

  /** The server's record. The secret is part of the metadata, encrypted under the current key. */
  datatype Container = Container(version: nat, location: EncKeyLocation, secret: string, users: seq<string>,
                                 managers: seq<string>, keyId: string, entries: seq<KeyEntrySet>)

  datatype StoreUpdateModel = StoreUpdateModel(version: nat, force: bool, users: seq<string>, managers: seq<string>,
                                               keyId: string, keys: seq<KeyEntrySet>)

  datatype StoreError = UnknownModuleEncryptionKey | StoreEncryptionKeyValidation | AccessOldVersion

  /** The members after each step, and for each key: the step that generated it, the key and its random id. */
  datatype Generated = Generated(born: nat, key: string, randomId: string)

  datatype Past = Past(members: seq<set<string>>, keys: map<string, Generated>)

  function IdSet(users: seq<string>, managers: seq<string>): set<string> {
    (set id | id in users) + (set id | id in managers)
  }

  function Members(c: Container): set<string> {
    IdSet(c.users, c.managers)
  }

  ghost predicate HasKey(entries: seq<KeyEntrySet>, user: string, keyId: string) {
    exists e :: e in entries && e.user == user && e.keyId == keyId
  }

  ghost predicate MemberSince(members: seq<set<string>>, from: nat, user: string) {
    exists t :: from <= t < |members| && user in members[t]
  }

  /** An entry that its user can open, and that holds the key it is for. */
  ghost predicate GoodEntry(w: World, location: EncKeyLocation, secret: string, keys: map<string, Generated>, e: KeyEntrySet) {
    && e.keyId in keys && e.data.Sealed?
    && e.data.forPubKey == w.directory(e.user)
    && e.data.key == EncKey(e.keyId, keys[e.keyId].key)
    && e.data.secretHash == w.ProviderOf(e.user).SecretHash(e.data.keySecret, location, secret)
    && e.data.dio.contextId == location.contextId && e.data.dio.resourceId == location.resourceId
    && e.data.dio.randomId == keys[e.keyId].randomId
  }

  ghost predicate GoodKeys(past: Past) {
    && (forall k :: k in past.keys ==> k != "" && past.keys[k].key != "" && past.keys[k].born < |past.members|)
    && (forall k, l :: k in past.keys && l in past.keys && past.keys[k].randomId == past.keys[l].randomId ==> k == l)
  }

  /** Whoever was a member at some time since the key was generated holds it, and nobody else does. */
  ghost predicate HeldByMembersSince(entries: seq<KeyEntrySet>, past: Past) {
    forall user, k :: k in past.keys ==> (HasKey(entries, user, k) <==> MemberSince(past.members, past.keys[k].born, user))
  }

  /** Nobody has left since the current key was generated. */
  ghost predicate NobodyLeftSince(past: Past, k: string) {
    k in past.keys && forall t :: past.keys[k].born <= t < |past.members| ==> past.members[t] <= past.members[|past.members| - 1]
  }

  ghost predicate Inv(w: World, c: Container, past: Past) {
    && past.members != [] && past.members[|past.members| - 1] == Members(c)
    && GoodKeys(past)
    && (forall e :: e in c.entries ==> GoodEntry(w, c.location, c.secret, past.keys, e))
    && HeldByMembersSince(c.entries, past)
    && NobodyLeftSince(past, c.keyId)
  }

  // ---- What the invariant means ----

  /** Every member holds every key generated so far. */
  lemma MembersHoldEveryKey(w: World, c: Container, past: Past, user: string, k: string)
    requires Inv(w, c, past) && user in Members(c) && k in past.keys
    ensures HasKey(c.entries, user, k)
  {
    assert user in past.members[|past.members| - 1];
    assert MemberSince(past.members, past.keys[k].born, user);
  }

  /** Someone who has not been a member since a key was generated does not hold it. */
  lemma OutsidersHoldNothingNew(w: World, c: Container, past: Past, user: string, k: string)
    requires Inv(w, c, past) && k in past.keys
    requires forall t :: past.keys[k].born <= t < |past.members| ==> user !in past.members[t]
    ensures !HasKey(c.entries, user, k)
  {
    assert !MemberSince(past.members, past.keys[k].born, user);
  }

  /** The current key is held by the members and by no one else. */
  lemma CurrentKeyHolders(w: World, c: Container, past: Past, user: string)
    requires Inv(w, c, past)
    ensures HasKey(c.entries, user, c.keyId) <==> user in Members(c)
  {
    if user in Members(c) {
      MembersHoldEveryKey(w, c, past, user, c.keyId);
    }
    if HasKey(c.entries, user, c.keyId) {
      assert MemberSince(past.members, past.keys[c.keyId].born, user);
    }
  }

  // ---- One update ----

  /** A key and a random id that have not been used before; both are random in the source. */
  ghost predicate FreshKey(past: Past, newKey: EncKey, randomId: string) {
    && newKey.id != "" && newKey.key != "" && newKey.id !in past.keys
    && forall k :: k in past.keys ==> past.keys[k].randomId != randomId
  }

  function NextPast(past: Past, m: StoreUpdateModel, newKey: EncKey, randomId: string): Past {
    Past(past.members + [IdSet(m.users, m.managers)],
         if m.keyId == newKey.id then past.keys[newKey.id := Generated(|past.members|, newKey.key, randomId)] else past.keys)
  }

  function Accept(c: Container, m: StoreUpdateModel): Container {
    c.(version := c.version + 1, users := m.users, managers := m.managers, keyId := m.keyId, entries := c.entries + m.keys)
  }

  /** What is true of an honest member's update whenever it arrives: its keys are known or its own, and its
      entries are good and only for its members. */
  ghost predicate Honest(w: World, c: Container, past: Past, m: StoreUpdateModel, newKey: EncKey, randomId: string) {
    && FreshKey(past, newKey, randomId)
    && (m.keyId in past.keys || m.keyId == newKey.id)
    && (forall e :: e in m.keys ==>
          e.user in IdSet(m.users, m.managers) && GoodEntry(w, c.location, c.secret, NextPast(past, m, newKey, randomId).keys, e))
  }

  /** An update as a member prepares it for the record `c`. */
  ghost predicate PreparedFor(w: World, c: Container, past: Past, m: StoreUpdateModel, newKey: EncKey, randomId: string) {
    var after := IdSet(m.users, m.managers);
    && Honest(w, c, past, m, newKey, randomId)
    && (m.keyId == c.keyId || m.keyId == newKey.id)
    && (m.keyId == c.keyId ==> Members(c) <= after)
    && (forall user, k :: user in after && user !in Members(c) && k in past.keys ==> HasKey(m.keys, user, k))
    && (m.keyId == newKey.id ==> forall user :: user in after ==> HasKey(m.keys, user, newKey.id))
  }

  /** Every later member holds each of the keys or gets it. */
  ghost predicate ReachesNewcomers(entries: seq<KeyEntrySet>, keys: set<string>, m: StoreUpdateModel) {
    forall user, k :: user in IdSet(m.users, m.managers) && k in keys ==> HasKey(entries, user, k) || HasKey(m.keys, user, k)
  }

  /** Looks only at the entries on the server, the keys generated so far and the update itself: every later member
      holds each key or gets it, a new key reaches all of them, and if an old key stays in use then nobody who holds
      it is left out. */
  ghost predicate Harmless(entries: seq<KeyEntrySet>, keys: set<string>, m: StoreUpdateModel, newKey: EncKey) {
    && ReachesNewcomers(entries, keys, m)
    && (m.keyId == newKey.id ==> forall user :: user in IdSet(m.users, m.managers) ==> HasKey(m.keys, user, newKey.id))
    && (m.keyId != newKey.id ==> forall user :: HasKey(entries, user, m.keyId) ==> user in IdSet(m.users, m.managers))
  }

  lemma HoldsMore(a: seq<KeyEntrySet>, b: seq<KeyEntrySet>, user: string, k: string)
    ensures HasKey(a + b, user, k) <==> HasKey(a, user, k) || HasKey(b, user, k)
  {
    if HasKey(a, user, k) {
      var e :| e in a && e.user == user && e.keyId == k;
      assert e in a + b;
    }
    if HasKey(b, user, k) {
      var e :| e in b && e.user == user && e.keyId == k;
      assert e in a + b;
    }
  }

  lemma MemberSinceMore(members: seq<set<string>>, more: set<string>, from: nat, user: string)
    requires from <= |members|
    ensures MemberSince(members + [more], from, user) <==> MemberSince(members, from, user) || user in more
  {
    var all := members + [more];
    if MemberSince(members, from, user) {
      var t :| from <= t < |members| && user in members[t];
      assert user in all[t];
    }
    if user in more { assert user in all[|members|]; }
    if MemberSince(all, from, user) {
      var t :| from <= t < |all| && user in all[t];
      if t < |members| { assert user in members[t]; }
    }
  }

  /** Who holds an older key after an update, whenever it arrives. */
  lemma OldKeyHolders(w: World, c: Container, past: Past, m: StoreUpdateModel, newKey: EncKey, randomId: string, user: string, k: string)
    requires Inv(w, c, past) && Honest(w, c, past, m, newKey, randomId) && k in past.keys
    ensures (HasKey(c.entries + m.keys, user, k) <==>
               MemberSince(past.members + [IdSet(m.users, m.managers)], past.keys[k].born, user))
            <==> (user in IdSet(m.users, m.managers) ==> HasKey(c.entries, user, k) || HasKey(m.keys, user, k))
  {
    HoldsMore(c.entries, m.keys, user, k);
    MemberSinceMore(past.members, IdSet(m.users, m.managers), past.keys[k].born, user);
  }

  lemma NewKeyHolders(w: World, c: Container, past: Past, m: StoreUpdateModel, newKey: EncKey, randomId: string, user: string)
    requires Inv(w, c, past) && Honest(w, c, past, m, newKey, randomId)
    ensures (HasKey(c.entries + m.keys, user, newKey.id) <==>
               MemberSince(past.members + [IdSet(m.users, m.managers)], |past.members|, user))
            <==> (user in IdSet(m.users, m.managers) ==> HasKey(m.keys, user, newKey.id))
  {
    HoldsMore(c.entries, m.keys, user, newKey.id);
    MemberSinceMore(past.members, IdSet(m.users, m.managers), |past.members|, user);
  }

  /** An old key stays with the members exactly if all its holders are later members. */
  lemma NobodyLeftIff(w: World, c: Container, past: Past, m: StoreUpdateModel, newKey: EncKey, randomId: string)
    requires Inv(w, c, past) && Honest(w, c, past, m, newKey, randomId)
    ensures NobodyLeftSince(NextPast(past, m, newKey, randomId), m.keyId) <==>
              (m.keyId != newKey.id ==> forall user :: HasKey(c.entries, user, m.keyId) ==> user in IdSet(m.users, m.managers))
  {
    var past', after := NextPast(past, m, newKey, randomId), IdSet(m.users, m.managers);
    assert past'.members[|past.members|] == after;
    if m.keyId != newKey.id {
      var born := past.keys[m.keyId].born;
      if NobodyLeftSince(past', m.keyId) {
        forall user | HasKey(c.entries, user, m.keyId) ensures user in after {
          var t :| born <= t < |past.members| && user in past.members[t];
          assert past'.members[t] <= after;
        }
      }
      if forall user :: HasKey(c.entries, user, m.keyId) ==> user in after {
        forall t | born <= t < |past'.members| ensures past'.members[t] <= after {
          forall user | user in past'.members[t] ensures user in after {
            if t < |past.members| { assert MemberSince(past.members, born, user); }
          }
        }
      }
    }
  }

  /** Keys and entries stay good, whatever the update does. */
  lemma GoodAfter(w: World, c: Container, past: Past, m: StoreUpdateModel, newKey: EncKey, randomId: string)
    requires Inv(w, c, past) && Honest(w, c, past, m, newKey, randomId)
    ensures GoodKeys(NextPast(past, m, newKey, randomId))
    ensures forall e :: e in c.entries + m.keys ==>
              GoodEntry(w, c.location, c.secret, NextPast(past, m, newKey, randomId).keys, e)
  {
    forall e | e in c.entries + m.keys
      ensures GoodEntry(w, c.location, c.secret, NextPast(past, m, newKey, randomId).keys, e)
    {
      if e in c.entries { assert GoodEntry(w, c.location, c.secret, past.keys, e); }
    }
  }

  lemma HoldersIff(w: World, c: Container, past: Past, m: StoreUpdateModel, newKey: EncKey, randomId: string)
    requires Inv(w, c, past) && Honest(w, c, past, m, newKey, randomId)
    ensures HeldByMembersSince(c.entries + m.keys, NextPast(past, m, newKey, randomId)) <==>
              ReachesNewcomers(c.entries, past.keys.Keys, m)
              && (m.keyId == newKey.id ==> forall user :: user in IdSet(m.users, m.managers) ==> HasKey(m.keys, user, newKey.id))
  {
    var past' := NextPast(past, m, newKey, randomId);
    forall user, k | k in past.keys
      ensures (HasKey(c.entries + m.keys, user, k) <==> MemberSince(past'.members, past'.keys[k].born, user))
              <==> (user in IdSet(m.users, m.managers) ==> HasKey(c.entries, user, k) || HasKey(m.keys, user, k))
    {
      OldKeyHolders(w, c, past, m, newKey, randomId, user, k);
    }
    forall user
      ensures (HasKey(c.entries + m.keys, user, newKey.id) <==> MemberSince(past'.members, |past.members|, user))
              <==> (user in IdSet(m.users, m.managers) ==> HasKey(m.keys, user, newKey.id))
    {
      NewKeyHolders(w, c, past, m, newKey, randomId, user);
    }
  }

  /** An honest update, however late it arrives, keeps the invariant exactly if it is harmless. */
  lemma AcceptIff(w: World, c: Container, past: Past, m: StoreUpdateModel, newKey: EncKey, randomId: string)
    requires Inv(w, c, past) && Honest(w, c, past, m, newKey, randomId)
    ensures Inv(w, Accept(c, m), NextPast(past, m, newKey, randomId)) <==> Harmless(c.entries, past.keys.Keys, m, newKey)
  {
    GoodAfter(w, c, past, m, newKey, randomId);
    HoldersIff(w, c, past, m, newKey, randomId);
    NobodyLeftIff(w, c, past, m, newKey, randomId);
  }

  /** An update that arrives at the record it was prepared for is harmless. */
  lemma PreparedIsHarmless(w: World, c: Container, past: Past, m: StoreUpdateModel, newKey: EncKey, randomId: string)
    requires Inv(w, c, past) && PreparedFor(w, c, past, m, newKey, randomId)
    ensures Harmless(c.entries, past.keys.Keys, m, newKey)
  {
    forall user, k | user in IdSet(m.users, m.managers) && k in past.keys
      ensures HasKey(c.entries, user, k) || HasKey(m.keys, user, k)
    {
      if user in Members(c) { MembersHoldEveryKey(w, c, past, user, k); }
    }
    if m.keyId != newKey.id {
      forall user | HasKey(c.entries, user, m.keyId) ensures user in IdSet(m.users, m.managers) {
        CurrentKeyHolders(w, c, past, user);
      }
    }
  }

  // ---- What a client does ----

  /** What the server gives to one user: his own entries only. */
  function EntriesOf(entries: seq<KeyEntrySet>, userId: string): (r: seq<KeyEntrySet>)
    ensures forall e :: e in r <==> e in entries && e.user == userId
  {
    if entries == [] then []
    else
      var n := |entries| - 1;
      assert entries == entries[..n] + [entries[n]];
      EntriesOf(entries[..n], userId) + if entries[n].user == userId then [entries[n]] else []
  }

  function StoreGet(c: Container, userId: string): Container {
    c.(entries := EntriesOf(c.entries, userId))
  }

  /** The entries by key id; of several for one key the last one stays. */
  method AddAll(entries: seq<KeyEntrySet>) returns (keys: map<string, KeyEntrySet>)
    ensures forall id :: id in keys ==> keys[id] in entries && keys[id].keyId == id
    ensures forall e :: e in entries ==> e.keyId in keys
  {
    keys := map[];
    for i := 0 to |entries|
      invariant forall id :: id in keys ==> keys[id] in entries[..i] && keys[id].keyId == id
      invariant forall e :: e in entries[..i] ==> e.keyId in keys
    {
      assert entries[..i + 1] == entries[..i] + [entries[i]];
      keys := keys[entries[i].keyId := entries[i]];
    }
  }

  /** What a user finds when he opens his entries: the generated keys that he holds, all valid. */
  ghost predicate OpensTo(w: World, location: EncKeyLocation, secret: string, past: Past, userId: string, id: string,
                          key: DecryptedEncKey)
  {
    && id in past.keys && key.id == id && key.key == past.keys[id].key && key.dio.randomId == past.keys[id].randomId
    && key.statusCode == Valid && key.dataStructureVersion == VERSION_2
    && w.ProviderOf(userId).HasSecret(key, location, secret)
  }

  lemma HonestKeys(w: World, c: Container, past: Past, userId: string, keys: map<string, KeyEntrySet>)
    requires Inv(w, c, past)
    requires forall id :: id in keys ==> keys[id] in EntriesOf(c.entries, userId) && keys[id].keyId == id
    ensures var found := w.ProviderOf(userId).OpenAll(keys, c.location);
            && MarkDuplicates(found) == found
            && forall id :: id in found ==> OpensTo(w, c.location, c.secret, past, userId, id, found[id])
  {
    var found := w.ProviderOf(userId).OpenAll(keys, c.location);
    forall id | id in found ensures OpensTo(w, c.location, c.secret, past, userId, id, found[id]) {
      assert GoodEntry(w, c.location, c.secret, past.keys, keys[id]);
    }
    DistinctNotMarked(found);
  }

  /** A user's keys, found and checked. No check ever fails, and he finds exactly the keys that he holds. */
  method GetAndValidateModuleKeys(w: World, userId: string, store: Container, ghost c: Container, ghost past: Past)
    returns (keys: map<string, DecryptedEncKey>)
    requires Inv(w, c, past) && store == StoreGet(c, userId)
    ensures forall id :: id in keys ==> OpensTo(w, c.location, c.secret, past, userId, id, keys[id])
    ensures forall id :: id in keys <==> HasKey(c.entries, userId, id)
  {
    var request := AddAll(store.entries);
    keys := w.ProviderOf(userId).DecryptAndVerifyKeys(request, store.location);
    HonestKeys(w, c, past, userId, request);
    forall id ensures id in request <==> HasKey(c.entries, userId, id) {
      if id in request { assert request[id] in c.entries; }
    }
  }

  ghost predicate IsFor(dio: DataIntegrityObject, location: EncKeyLocation) {
    dio.contextId == location.contextId && dio.resourceId == location.resourceId
  }

  /** All entries are good ones for the given users. */
  ghost predicate GoodFor(w: World, location: EncKeyLocation, secret: string, keys: map<string, Generated>,
                          users: seq<UserWithPubKey>, entries: seq<KeyEntrySet>)
  {
    forall e :: e in entries ==> e.user in Ids(users) && GoodEntry(w, location, secret, keys, e)
  }

  ghost predicate Reaches(entries: seq<KeyEntrySet>, users: seq<UserWithPubKey>, id: string) {
    forall a :: a in users ==> HasKey(entries, a.userId, id)
  }

  /** The entries for a new key are good, and reach everyone. */
  lemma NewKeyEntries(w: World, userId: string, location: EncKeyLocation, secret: string, keys: map<string, Generated>,
                      users: seq<UserWithPubKey>, newKey: EncKey, dio: DataIntegrityObject, entries: seq<KeyEntrySet>)
    requires w.Knows(users) && IsFor(dio, location)
    requires newKey.id in keys && keys[newKey.id].key == newKey.key && keys[newKey.id].randomId == dio.randomId
    requires |entries| == |users|
    requires forall i :: 0 <= i < |users| ==> w.ProviderOf(userId).EntryFor(entries[i], users[i], newKey, dio, location, secret)
    ensures GoodFor(w, location, secret, keys, users, entries) && Reaches(entries, users, newKey.id)
  {
    IdsOf(users);
    forall e | e in entries ensures e.user in Ids(users) && GoodEntry(w, location, secret, keys, e) {
      var i :| 0 <= i < |entries| && entries[i] == e;
      assert users[i] in users;
    }
    forall a | a in users ensures HasKey(entries, a.userId, newKey.id) {
      var i :| 0 <= i < |users| && users[i] == a;
      assert entries[i] in entries;
    }
  }

  /** The old keys passed on are good entries, and reach everyone they are meant for. */
  lemma PassedOnEntries(w: World, userId: string, location: EncKeyLocation, secret: string, past: Past, keys: map<string, Generated>,
                        storeKeys: map<string, DecryptedEncKey>, users: seq<UserWithPubKey>, dio: DataIntegrityObject,
                        entries: seq<KeyEntrySet>)
    requires w.Knows(users) && IsFor(dio, location)
    requires forall k :: k in past.keys ==> k in keys && keys[k] == past.keys[k]
    requires forall id :: id in storeKeys ==> OpensTo(w, location, secret, past, userId, id, storeKeys[id])
    requires forall e :: e in entries ==> w.ProviderOf(userId).PassesOnSome(e, storeKeys, users, dio, location, secret)
    requires forall id, user :: id in storeKeys && storeKeys[id].statusCode == Valid && user in users ==>
               w.ProviderOf(userId).PassedOnTo(entries, id, user, storeKeys, dio, location, secret)
    ensures GoodFor(w, location, secret, keys, users, entries)
    ensures forall id :: id in storeKeys ==> Reaches(entries, users, id)
  {
    IdsOf(users);
    var provider := w.ProviderOf(userId);
    forall e | e in entries ensures e.user in Ids(users) && GoodEntry(w, location, secret, keys, e) {
      assert provider.PassesOnSome(e, storeKeys, users, dio, location, secret);
      var id, user :| user in users && provider.PassesOn(e, id, user, storeKeys, dio, location, secret);
      assert OpensTo(w, location, secret, past, userId, id, storeKeys[id]);
    }
    forall id, a | id in storeKeys && a in users ensures HasKey(entries, a.userId, id) {
      assert OpensTo(w, location, secret, past, userId, id, storeKeys[id]);
      assert provider.PassedOnTo(entries, id, a, storeKeys, dio, location, secret);
      var e :| e in entries && provider.PassesOn(e, id, a, storeKeys, dio, location, secret);
    }
  }

  ghost function KeysAfter(past: Past, needNewKey: bool, newKey: EncKey, randomId: string): map<string, Generated> {
    if needNewKey then past.keys[newKey.id := Generated(|past.members|, newKey.key, randomId)] else past.keys
  }

  lemma ReachesMore(a: seq<KeyEntrySet>, b: seq<KeyEntrySet>, users: seq<UserWithPubKey>, id: string)
    requires Reaches(a, users, id) || Reaches(b, users, id)
    ensures Reaches(a + b, users, id)
  {
    forall u | u in users ensures HasKey(a + b, u.userId, id) {
      HoldsMore(a, b, u.userId, id);
    }
  }

  lemma GoodForMore(w: World, location: EncKeyLocation, secret: string, keys: map<string, Generated>, users: seq<UserWithPubKey>,
                    some: seq<UserWithPubKey>, a: seq<KeyEntrySet>, b: seq<KeyEntrySet>)
    requires GoodFor(w, location, secret, keys, users, a) && GoodFor(w, location, secret, keys, some, b) && Includes(users, some)
    ensures GoodFor(w, location, secret, keys, users, a + b)
  {
    IdsOf(users);
    IdsOf(some);
  }

  /** The key entries of an update: a new key for everyone if needed, and the old ones for newcomers. */
  method PrepareKeys(w: World, userId: string, storeKeys: map<string, DecryptedEncKey>, newUsers: seq<UserWithPubKey>,
                     usersToAddMissingKey: seq<UserWithPubKey>, needNewKey: bool, newKey: EncKey, dio: DataIntegrityObject,
                     location: EncKeyLocation, secret: string, ghost past: Past)
    returns (keys: seq<KeyEntrySet>)
    requires w.Knows(newUsers) && Includes(newUsers, usersToAddMissingKey) && IsFor(dio, location)
    requires FreshKey(past, newKey, dio.randomId)
    requires forall id :: id in storeKeys ==> OpensTo(w, location, secret, past, userId, id, storeKeys[id])
    ensures GoodFor(w, location, secret, KeysAfter(past, needNewKey, newKey, dio.randomId), newUsers, keys)
    ensures needNewKey ==> Reaches(keys, newUsers, newKey.id)
    ensures forall id :: id in storeKeys ==> Reaches(keys, usersToAddMissingKey, id)
  {
    ghost var after := KeysAfter(past, needNewKey, newKey, dio.randomId);
    keys := [];
    if needNewKey {
      keys := w.ProviderOf(userId).PrepareKeysList(newUsers, newKey, dio, location, secret);
      NewKeyEntries(w, userId, location, secret, after, newUsers, newKey, dio, keys);
    }
    if |usersToAddMissingKey| > 0 {
      var tmp := w.ProviderOf(userId).PrepareMissingKeysForNewUsers(storeKeys, usersToAddMissingKey, dio, location, secret);
      PassedOnEntries(w, userId, location, secret, past, after, storeKeys, usersToAddMissingKey, dio, tmp);
      GoodForMore(w, location, secret, after, newUsers, usersToAddMissingKey, keys, tmp);
      if needNewKey { ReachesMore(keys, tmp, newUsers, newKey.id); }
      forall id | id in storeKeys ensures Reaches(keys + tmp, usersToAddMissingKey, id) {
        ReachesMore(keys, tmp, usersToAddMissingKey, id);
      }
      keys := keys + tmp;
    }
  }

  lemma SameIds(users: seq<UserWithPubKey>, managers: seq<UserWithPubKey>, newUsers: seq<UserWithPubKey>)
    requires Includes(users + managers, newUsers) && Includes(newUsers, users + managers)
    ensures forall id :: id in IdSet(Ids(users), Ids(managers)) <==> id in Ids(newUsers)
  {
    IdsOf(users);
    IdsOf(managers);
    IdsOf(newUsers);
    forall id | id in Ids(newUsers) ensures id in IdSet(Ids(users), Ids(managers)) {
      var a :| a in newUsers && a.userId == id;
      assert a in users + managers;
    }
    forall id | id in IdSet(Ids(users), Ids(managers)) ensures id in Ids(newUsers) {
      var a :| (a in users || a in managers) && a.userId == id;
      assert a in users + managers;
    }
  }

  lemma KnownOneKeyEach(w: World, all: seq<UserWithPubKey>, newUsers: seq<UserWithPubKey>)
    requires w.Knows(all) && Includes(all, newUsers)
    ensures w.Knows(newUsers) && OneKeyEach(newUsers)
  {
  }

  /** Putting it together: the model sent to the server is a prepared update. */
  lemma UpdateIsPrepared(w: World, c: Container, past: Past, m: StoreUpdateModel, newKey: EncKey, randomId: string,
                         users: seq<UserWithPubKey>, managers: seq<UserWithPubKey>, newUsers: seq<UserWithPubKey>,
                         toAdd: seq<UserWithPubKey>, needNewKey: bool)
    requires Inv(w, c, past) && FreshKey(past, newKey, randomId)
    requires m.users == Ids(users) && m.managers == Ids(managers)
    requires Includes(users + managers, newUsers) && Includes(newUsers, users + managers)
    requires forall a :: a in newUsers && Newcomer(a, c.users, c.managers) ==> a in toAdd
    requires SomeoneLeft(c.users, c.managers, newUsers) ==> needNewKey
    requires m.keyId == if needNewKey then newKey.id else c.keyId
    requires GoodFor(w, c.location, c.secret, KeysAfter(past, needNewKey, newKey, randomId), newUsers, m.keys)
    requires needNewKey ==> Reaches(m.keys, newUsers, newKey.id)
    requires forall id :: id in past.keys ==> Reaches(m.keys, toAdd, id)
    ensures PreparedFor(w, c, past, m, newKey, randomId)
  {
    var after := IdSet(m.users, m.managers);
    SameIds(users, managers, newUsers);
    IdsOf(newUsers);
    forall user, k | user in after && user !in Members(c) && k in past.keys ensures HasKey(m.keys, user, k) {
      var a :| a in newUsers && a.userId == user;
      assert Newcomer(a, c.users, c.managers) && Reaches(m.keys, toAdd, k);
    }
    if needNewKey {
      forall user | user in after ensures HasKey(m.keys, user, newKey.id) {
        var a :| a in newUsers && a.userId == user;
      }
    } else {
      forall id | id in Members(c) ensures id in after {
        assert !Left(id, c.users, c.managers, newUsers);
      }
    }
  }

  lemma NewKeyWhen(c: Container, users: seq<UserWithPubKey>, managers: seq<UserWithPubKey>, newUsers: seq<UserWithPubKey>)
    requires Includes(users + managers, newUsers) && Includes(newUsers, users + managers)
    ensures SomeoneLeft(c.users, c.managers, newUsers) <==> !(Members(c) <= IdSet(Ids(users), Ids(managers)))
  {
    SameIds(users, managers, newUsers);
    if !(Members(c) <= IdSet(Ids(users), Ids(managers))) {
      var id :| id in Members(c) && id !in IdSet(Ids(users), Ids(managers));
      assert Left(id, c.users, c.managers, newUsers);
    }
    if SomeoneLeft(c.users, c.managers, newUsers) {
      var id :| Left(id, c.users, c.managers, newUsers);
      assert id in Members(c);
    }
  }

  /** Prepares an update on the record as the server gives it to this user. It succeeds exactly for members,
      and asks for a new key exactly when someone leaves or a new key is forced. */
  method UpdateStore(w: World, userId: string, store: Container, users: seq<UserWithPubKey>, managers: seq<UserWithPubKey>,
                     version: nat, force: bool, forceGenerateNewKey: bool, newKey: EncKey, dio: DataIntegrityObject,
                     ghost c: Container, ghost past: Past)
    returns (r: Result<StoreUpdateModel, StoreError>)
    requires Inv(w, c, past) && store == StoreGet(c, userId)
    requires w.Knows(users + managers) && Unambiguous(users + managers)
    requires FreshKey(past, newKey, dio.randomId) && IsFor(dio, c.location)
    ensures r.Ok? <==> userId in Members(c)
    ensures r.Err? ==> r.error == UnknownModuleEncryptionKey
    ensures r.Ok? ==>
              && PreparedFor(w, c, past, r.value, newKey, dio.randomId)
              && r.value.version == version && r.value.force == force
              && r.value.users == Ids(users) && r.value.managers == Ids(managers)
              && (r.value.keyId == newKey.id <==>
                    forceGenerateNewKey || !(Members(c) <= IdSet(Ids(users), Ids(managers))))
  {
    var storeKeys := GetAndValidateModuleKeys(w, userId, store, c, past);
    CurrentKeyHolders(w, c, past, userId);
    if store.keyId !in storeKeys {
      return Err(UnknownModuleEncryptionKey);
    }
    EveryKeyFound(w, c, past, userId, storeKeys.Keys);
    var resolver := new Resolver(store.users, store.managers, users, managers, forceGenerateNewKey,
                                 storeKeys[store.keyId].dataStructureVersion);
    KnownOneKeyEach(w, users + managers, resolver.newUsers);
    NewKeyWhen(c, users, managers, resolver.newUsers);
    var verified := w.ProviderOf(userId).VerifyKeysSecret(storeKeys, store.location, store.secret);
    if !verified {
      assert false;
      return Err(StoreEncryptionKeyValidation);
    }
    var keys := PrepareKeys(w, userId, storeKeys, resolver.newUsers, resolver.usersToAddMissingKey, resolver.needNewKey,
                            newKey, dio, store.location, store.secret, past);
    var model := StoreUpdateModel(version, force, Ids(users), Ids(managers),
                                  if resolver.needNewKey then newKey.id else store.keyId, keys);
    UpdateIsPrepared(w, c, past, model, newKey, dio.randomId, users, managers, resolver.newUsers,
                     resolver.usersToAddMissingKey, resolver.needNewKey);
    r := Ok(model);
  }

  /** A member finds every key generated so far. */
  lemma EveryKeyFound(w: World, c: Container, past: Past, userId: string, found: set<string>)
    requires Inv(w, c, past) && userId in Members(c)
    requires forall id :: id in found <==> HasKey(c.entries, userId, id)
    ensures found == past.keys.Keys
  {
    forall id | id in past.keys ensures id in found {
      MembersHoldEveryKey(w, c, past, userId, id);
    }
    forall id | id in found ensures id in past.keys {
      var e :| e in c.entries && e.user == userId && e.keyId == id;
      assert GoodEntry(w, c.location, c.secret, past.keys, e);
    }
  }
}
