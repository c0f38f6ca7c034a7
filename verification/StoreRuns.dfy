/** Whole runs of a Store's keys: members prepare updates at any time, from the record as it is then, and
    the server accepts or rejects them later, in any order. */
module StoreRuns {
  import opened EndpointUtils
  import opened KeyProvider
  import opened StoreKeys

  /** A prepared update on its way to the server: `basis` is the version of the record it was prepared from. */
  datatype InFlight = InFlight(basis: nat, model: StoreUpdateModel, newKey: EncKey, randomId: string)

  datatype Command =
    | Update(userId: string, users: seq<UserWithPubKey>, managers: seq<UserWithPubKey>, version: nat, force: bool,
             forceGenerateNewKey: bool, newKey: EncKey, dio: DataIntegrityObject)
    | Deliver(index: nat)

  /** A new Store: one key, for everyone. */
  method StoreCreate(w: World, location: EncKeyLocation, users: seq<UserWithPubKey>, managers: seq<UserWithPubKey>,
                     storeKey: EncKey, dio: DataIntegrityObject, secret: string)
    returns (c: Container, ghost past: Past)
    requires w.Knows(users + managers) && Unambiguous(users + managers) && IsFor(dio, location)
    requires storeKey.id != "" && storeKey.key != ""
    ensures Inv(w, c, past) && Members(c) == IdSet(Ids(users), Ids(managers)) && c.keyId == storeKey.id
    ensures past.members == [Members(c)] && past.keys.Keys == {storeKey.id}
  {
    var allUsers := UniqueListUserWithPubKey(users, managers);
    var creator := w.ProviderOf(dio.creatorUserId);
    var keys := creator.PrepareKeysList(allUsers, storeKey, dio, location, secret);
    c := Container(1, location, secret, Ids(users), Ids(managers), storeKey.id, keys);
    past := Past([Members(c)], map[storeKey.id := Generated(0, storeKey.key, dio.randomId)]);
    KnownOneKeyEach(w, users + managers, allUsers);
    NewKeyEntries(w, dio.creatorUserId, location, secret, past.keys, allUsers, storeKey, dio, keys);
    SameIds(users, managers, allUsers);
    CreatedInv(w, c, past, allUsers);
  }

  lemma CreatedInv(w: World, c: Container, past: Past, allUsers: seq<UserWithPubKey>)
    requires past.members == [Members(c)] && past.keys.Keys == {c.keyId} && GoodKeys(past)
    requires GoodFor(w, c.location, c.secret, past.keys, allUsers, c.entries) && Reaches(c.entries, allUsers, c.keyId)
    requires forall id :: id in Members(c) <==> id in Ids(allUsers)
    ensures Inv(w, c, past)
  {
    UsersKeysResolver.IdsOf(allUsers);
    forall user ensures HasKey(c.entries, user, c.keyId) <==> MemberSince(past.members, 0, user) {
      if user in Members(c) {
        assert user in past.members[0];
        var a :| a in allUsers && a.userId == user;
      }
    }
  }

  // ---- The protocol as a state machine ----

  datatype State = State(container: Container, past: Past, pending: seq<InFlight>)

  /** The key and random id are not those of another update on its way: both are random in the source. */
  ghost predicate Distinct(p: InFlight, q: InFlight) {
    p.newKey.id != q.newKey.id && p.randomId != q.randomId
  }

  /** A member has prepared an update. Nobody knows a version from the future. */
  ghost predicate PrepareStep(w: World, s: State, t: State, p: InFlight) {
    && t == s.(pending := s.pending + [p])
    && p.basis == s.container.version
    && (!p.model.force ==> p.model.version <= p.basis)
    && PreparedFor(w, s.container, s.past, p.model, p.newKey, p.randomId)
    && forall i :: 0 <= i < |s.pending| ==> Distinct(s.pending[i], p)
  }

  /** The server rejects an update for another version than its own, unless it is forced. */
  predicate Accepts(c: Container, m: StoreUpdateModel) {
    m.force || m.version == c.version
  }

  /** The server has received an update. */
  ghost predicate Delivered(s: State, t: State, i: nat) {
    && i < |s.pending|
    && t.pending == s.pending[..i] + s.pending[i + 1..]
    && if Accepts(s.container, s.pending[i].model)
       then t.container == Accept(s.container, s.pending[i].model)
            && t.past == NextPast(s.past, s.pending[i].model, s.pending[i].newKey, s.pending[i].randomId)
       else t.container == s.container && t.past == s.past
  }

  /** A forced update may arrive late, as long as it is harmless then. */
  ghost predicate HarmlessIfForced(s: State, i: nat)
    requires i < |s.pending|
  {
    s.pending[i].model.force ==> Harmless(s.container.entries, s.past.keys.Keys, s.pending[i].model, s.pending[i].newKey)
  }

  ghost predicate DeliverStep(s: State, t: State, i: nat) {
    Delivered(s, t, i) && HarmlessIfForced(s, i)
  }

  ghost predicate Next(w: World, s: State, t: State) {
    (exists p :: PrepareStep(w, s, t, p)) || (exists i :: DeliverStep(s, t, i))
  }

  ghost predicate StoreRun(w: World, states: seq<State>) {
    && states != [] && states[0].pending == [] && Inv(w, states[0].container, states[0].past)
    && forall i :: 0 <= i < |states| - 1 ==> Next(w, states[i], states[i + 1])
  }

  /** A pending update stays honest, and is harmless while it has not been overtaken. */
  ghost predicate Fits(w: World, s: State, p: InFlight) {
    && p.basis <= s.container.version
    && (!p.model.force ==> p.model.version <= p.basis)
    && Honest(w, s.container, s.past, p.model, p.newKey, p.randomId)
    && (p.basis == s.container.version ==> Harmless(s.container.entries, s.past.keys.Keys, p.model, p.newKey))
  }

  ghost predicate Safe(w: World, s: State) {
    && Inv(w, s.container, s.past)
    && (forall i :: 0 <= i < |s.pending| ==> Fits(w, s, s.pending[i]))
    && (forall i, j :: 0 <= i < j < |s.pending| ==> Distinct(s.pending[i], s.pending[j]))
  }

  /** An update that is accepted makes no other one less honest. */
  lemma StaysHonest(w: World, c: Container, past: Past, p: InFlight, q: InFlight)
    requires Distinct(p, q)
    requires Honest(w, c, past, p.model, p.newKey, p.randomId) && Honest(w, c, past, q.model, q.newKey, q.randomId)
    ensures Honest(w, Accept(c, p.model), NextPast(past, p.model, p.newKey, p.randomId), q.model, q.newKey, q.randomId)
  {
    var past' := NextPast(past, p.model, p.newKey, p.randomId);
    forall e | e in q.model.keys
      ensures GoodEntry(w, c.location, c.secret, NextPast(past', q.model, q.newKey, q.randomId).keys, e)
    {
      assert GoodEntry(w, c.location, c.secret, NextPast(past, q.model, q.newKey, q.randomId).keys, e);
    }
  }

  lemma StaysFit(w: World, s: State, t: State, i: nat, j: nat)
    requires Safe(w, s) && Delivered(s, t, i) && j < |s.pending| && j != i
    ensures Fits(w, t, s.pending[j])
  {
    var p, q := s.pending[i], s.pending[j];
    assert Fits(w, s, p) && Fits(w, s, q);
    assert Distinct(p, q) by {
      if i < j { assert Distinct(s.pending[i], s.pending[j]); } else { assert Distinct(s.pending[j], s.pending[i]); }
    }
    if Accepts(s.container, p.model) { StaysHonest(w, s.container, s.past, p, q); }
  }

  /** After any delivery the keys are as they should be exactly if the update was rejected or harmless; one
      that is not forced is always one of the two. */
  lemma DeliveryIff(w: World, s: State, t: State, i: nat)
    requires Safe(w, s) && Delivered(s, t, i)
    ensures Inv(w, t.container, t.past) <==> HarmlessIfForced(s, i)
  {
    var p := s.pending[i];
    assert Fits(w, s, p);
    if Accepts(s.container, p.model) {
      AcceptIff(w, s.container, s.past, p.model, p.newKey, p.randomId);
    }
  }

  lemma DeliverKeeps(w: World, s: State, t: State, i: nat)
    requires Safe(w, s) && DeliverStep(s, t, i)
    ensures Safe(w, t)
  {
    DeliveryIff(w, s, t, i);
    StayFit(w, s, t, i);
    StayDistinct(s.pending, i);
  }

  lemma StayFit(w: World, s: State, t: State, i: nat)
    requires Safe(w, s) && Delivered(s, t, i)
    ensures forall j :: 0 <= j < |t.pending| ==> Fits(w, t, t.pending[j])
  {
    forall j | 0 <= j < |t.pending| ensures Fits(w, t, t.pending[j]) {
      StaysFit(w, s, t, i, if j < i then j else j + 1);
    }
  }

  lemma StayDistinct(pending: seq<InFlight>, i: nat)
    requires i < |pending| && forall j, k :: 0 <= j < k < |pending| ==> Distinct(pending[j], pending[k])
    ensures var rest := pending[..i] + pending[i + 1..];
            forall j, k :: 0 <= j < k < |rest| ==> Distinct(rest[j], rest[k])
  {
    var rest := pending[..i] + pending[i + 1..];
    forall j, k | 0 <= j < k < |rest| ensures Distinct(rest[j], rest[k]) {
      assert Distinct(pending[if j < i then j else j + 1], pending[if k < i then k else k + 1]);
    }
  }

  lemma PrepareKeeps(w: World, s: State, t: State, p: InFlight)
    requires Safe(w, s) && PrepareStep(w, s, t, p)
    ensures Safe(w, t)
  {
    PreparedIsHarmless(w, s.container, s.past, p.model, p.newKey, p.randomId);
    forall j | 0 <= j < |t.pending| ensures Fits(w, t, t.pending[j]) {
      if j < |s.pending| { assert Fits(w, s, s.pending[j]); }
    }
  }

  lemma NextKeeps(w: World, s: State, t: State)
    requires Safe(w, s) && Next(w, s, t)
    ensures Safe(w, t)
  {
    if p :| PrepareStep(w, s, t, p) {
      PrepareKeeps(w, s, t, p);
    } else {
      var i :| DeliverStep(s, t, i);
      DeliverKeeps(w, s, t, i);
    }
  }

  lemma {:induction false} RunIsSafe(w: World, states: seq<State>, i: nat)
    requires StoreRun(w, states) && i < |states|
    ensures Safe(w, states[i])
  {
    if i > 0 {
      RunIsSafe(w, states, i - 1);
      assert Next(w, states[i - 1], states[i]);
      NextKeeps(w, states[i - 1], states[i]);
    }
  }

  /** At any time in any run: a member holds every key generated so far; a user who has not been a member
      since a key was generated does not hold it; the current key is held by exactly the members. */
  lemma WhoHoldsWhat(w: World, states: seq<State>, i: nat, user: string, k: string)
    requires StoreRun(w, states) && i < |states| && k in states[i].past.keys
    ensures var s := states[i];
            && (user in Members(s.container) ==> HasKey(s.container.entries, user, k))
            && (HasKey(s.container.entries, user, k) <==> MemberSince(s.past.members, s.past.keys[k].born, user))
            && (HasKey(s.container.entries, user, s.container.keyId) <==> user in Members(s.container))
  {
    RunIsSafe(w, states, i);
    var s := states[i];
    if user in Members(s.container) { MembersHoldEveryKey(w, s.container, s.past, user, k); }
    CurrentKeyHolders(w, s.container, s.past, user);
  }

  /** A user who is not a member at any time after state `i` holds no key generated after it. */
  lemma RemovedUserLearnsNothing(w: World, states: seq<State>, i: nat, j: nat, user: string, k: string)
    requires StoreRun(w, states) && i <= j < |states|
    requires k in states[j].past.keys && states[j].past.keys[k].born >= |states[i].past.members|
    requires forall t :: |states[i].past.members| <= t < |states[j].past.members| ==> user !in states[j].past.members[t]
    ensures !HasKey(states[j].container.entries, user, k)
  {
    RunIsSafe(w, states, j);
    OutsidersHoldNothingNew(w, states[j].container, states[j].past, user, k);
  }

  // ---- A forced update that does harm ----

  const PLACE := EncKeyLocation("", "")

  /** An entry that gives key `id` to `user`. */
  function ExampleEntry(w: World, user: string, id: string): KeyEntrySet {
    KeyEntrySet(user, id, Sealed(w.directory(user), EncKey(id, "key"), "", w.ProviderOf(user).SecretHash("", PLACE, ""),
                                 DataIntegrityObject("", "", "", "", 0, id)))
  }

  /** `a` and `b` share a Store under key `1`. */
  function ExampleStore(w: World): Container {
    Container(1, PLACE, "", ["a", "b"], [], "1", [ExampleEntry(w, "a", "1"), ExampleEntry(w, "b", "1")])
  }

  const EXAMPLE_PAST := Past([{"a", "b"}], map["1" := Generated(0, "key", "1")])

  function RemoveB(w: World): StoreUpdateModel {
    StoreUpdateModel(1, false, ["a"], [], "2", [ExampleEntry(w, "a", "2")])
  }

  function AddC(w: World): StoreUpdateModel {
    StoreUpdateModel(1, true, ["a", "b", "c"], [], "1", [ExampleEntry(w, "c", "1")])
  }

  lemma ExampleInv(w: World)
    ensures Inv(w, ExampleStore(w), EXAMPLE_PAST)
  {
    var c, past := ExampleStore(w), EXAMPLE_PAST;
    assert Members(c) == {"a", "b"};
    assert c.entries[0].user == "a" && c.entries[1].user == "b";
    forall user ensures HasKey(c.entries, user, "1") <==> MemberSince(past.members, 0, user) {
      if user in past.members[0] {
        assert c.entries[if user == "a" then 0 else 1] in c.entries;
      }
    }
  }

  lemma RemoveBPrepared(w: World)
    ensures PreparedFor(w, ExampleStore(w), EXAMPLE_PAST, RemoveB(w), EncKey("2", "key"), "2")
  {
    assert IdSet(["a"], []) == {"a"} && IdSet(["a", "b"], []) == {"a", "b"};
    assert RemoveB(w).keys[0] in RemoveB(w).keys;
  }

  lemma AddCPrepared(w: World)
    ensures PreparedFor(w, ExampleStore(w), EXAMPLE_PAST, AddC(w), EncKey("3", "key"), "3")
  {
    assert IdSet(["a", "b", "c"], []) == {"a", "b", "c"} && IdSet(["a", "b"], []) == {"a", "b"};
    assert AddC(w).keys[0] in AddC(w).keys;
  }

  /** Two updates prepared from the same record: one takes `b` away, which brings a new key; the other adds
      `c`, and is forced. Delivered in this order, the second brings `b` and the old key back, and `c` never
      gets the new key, under which the Store may have been used. */
  lemma OvertakenForcedExample(w: World)
    ensures var c := ExampleStore(w);
            && Inv(w, c, EXAMPLE_PAST)
            && PreparedFor(w, c, EXAMPLE_PAST, RemoveB(w), EncKey("2", "key"), "2")
            && PreparedFor(w, c, EXAMPLE_PAST, AddC(w), EncKey("3", "key"), "3")
            && Accepts(c, RemoveB(w)) && Accepts(Accept(c, RemoveB(w)), AddC(w))
            && var past := NextPast(EXAMPLE_PAST, RemoveB(w), EncKey("2", "key"), "2");
               var end := Accept(Accept(c, RemoveB(w)), AddC(w));
               && "c" in Members(end) && !HasKey(end.entries, "c", "2") && HasKey(end.entries, "a", "2")
               && !Harmless(Accept(c, RemoveB(w)).entries, past.keys.Keys, AddC(w), EncKey("3", "key"))
               && !Inv(w, end, NextPast(past, AddC(w), EncKey("3", "key"), "3"))
  {
    ExampleInv(w);
    RemoveBPrepared(w);
    AddCPrepared(w);
    var past := NextPast(EXAMPLE_PAST, RemoveB(w), EncKey("2", "key"), "2");
    OvertakenEnd(w);
    LacksKey(w, Accept(ExampleStore(w), RemoveB(w)), past, AddC(w), EncKey("3", "key"), "3", "c", "2");
  }

  lemma OvertakenEnd(w: World)
    ensures var end := Accept(Accept(ExampleStore(w), RemoveB(w)), AddC(w));
            "c" in Members(end) && !HasKey(end.entries, "c", "2") && HasKey(end.entries, "a", "2")
  {
    var end := Accept(Accept(ExampleStore(w), RemoveB(w)), AddC(w));
    assert end.users[2] == "c";
    assert end.entries == [ExampleEntry(w, "a", "1"), ExampleEntry(w, "b", "1"), ExampleEntry(w, "a", "2"), ExampleEntry(w, "c", "1")];
    assert end.entries[2] in end.entries;
  }

  /** A later member who holds one of the keys neither before nor after: the update did harm. */
  lemma LacksKey(w: World, c: Container, past: Past, m: StoreUpdateModel, newKey: EncKey, randomId: string, user: string, k: string)
    requires user in IdSet(m.users, m.managers) && k in past.keys && newKey.id !in past.keys
    requires !HasKey(c.entries + m.keys, user, k)
    ensures !Harmless(c.entries, past.keys.Keys, m, newKey) && !Inv(w, Accept(c, m), NextPast(past, m, newKey, randomId))
  {
    var past' := NextPast(past, m, newKey, randomId);
    HoldsMore(c.entries, m.keys, user, k);
    if Inv(w, Accept(c, m), past') { MembersHoldEveryKey(w, Accept(c, m), past', user, k); }
  }

  // ---- The steps as they are carried out ----

  class Bridge {
    ghost const world: World
    var container: Container
    var pending: seq<InFlight>
    ghost var past: Past

    ghost function View(): State
      reads this
    {
      State(container, past, pending)
    }

    ghost predicate Valid()
      reads this
    {
      Safe(world, View())
    }

    constructor (ghost world: World, c: Container, ghost past: Past)
      requires Inv(world, c, past)
      ensures Valid() && View() == State(c, past, []) && this.world == world
    {
      this.world, container, this.past, pending := world, c, past, [];
    }

    method StoreUpdate(m: StoreUpdateModel, ghost newKey: EncKey, ghost randomId: string) returns (ok: bool)
      modifies this`container, this`past
      ensures ok == Accepts(old(container), m)
      ensures if ok then container == Accept(old(container), m) && past == NextPast(old(past), m, newKey, randomId)
              else container == old(container) && past == old(past)
    {
      ok := m.force || m.version == container.version;
      if ok {
        container := Accept(container, m);
        past := NextPast(past, m, newKey, randomId);
      }
    }

    /** Whether a command is one that the protocol is made for: updates with fresh keys for users known by one
        public key each. */
    ghost predicate Orderly(cmd: Command)
      reads this
    {
      match cmd
      case Update(_, users, managers, version, _, _, newKey, dio) =>
        && world.Knows(users + managers) && Unambiguous(users + managers)
        && FreshKey(past, newKey, dio.randomId) && IsFor(dio, container.location)
        && (forall i :: 0 <= i < |pending| ==> pending[i].newKey.id != newKey.id && pending[i].randomId != dio.randomId)
        && version <= container.version
      case Deliver(index) =>
        index < |pending|
    }

    /** Carries out one command as a step of the state machine. Users who are not members cannot prepare updates. A
        forced update is delivered whatever it does; the keys are as they should be afterwards exactly if it was
        harmless when it arrived. */
    method Execute(w: World, cmd: Command)
      requires Valid() && w == world && Orderly(cmd)
      modifies this
      ensures cmd.Update? ==>
                && Valid()
                && if cmd.userId !in Members(old(container)) then View() == old(View()) else Next(world, old(View()), View())
      ensures cmd.Deliver? ==>
                && Delivered(old(View()), View(), cmd.index)
                && (Inv(world, container, past) <==> HarmlessIfForced(old(View()), cmd.index))
                && (HarmlessIfForced(old(View()), cmd.index) ==> Valid() && Next(world, old(View()), View()))
    {
      match cmd
      case Update(userId, users, managers, version, force, forceGenerateNewKey, newKey, dio) =>
        var prepared := UpdateStore(w, userId, StoreGet(container, userId), users, managers, version, force,
                                    forceGenerateNewKey, newKey, dio, container, past);
        if prepared.Ok? {
          var p := InFlight(container.version, prepared.value, newKey, dio.randomId);
          pending := pending + [p];
          assert PrepareStep(world, old(View()), View(), p);
          NextKeeps(world, old(View()), View());
        }
      case Deliver(index) =>
        var p := pending[index];
        pending := pending[..index] + pending[index + 1..];
        var accepted := StoreUpdate(p.model, p.newKey, p.randomId);
        DeliveryIff(world, old(View()), View(), index);
        if HarmlessIfForced(old(View()), index) {
          assert DeliverStep(old(View()), View(), index);
          NextKeeps(world, old(View()), View());
        }
    }
  }
}
