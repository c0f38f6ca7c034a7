/** Decides who gets which keys of a container when its users change, and whether it needs a new one. */
module UsersKeysResolver {
  import opened EndpointUtils

  /** Former users and managers that are no longer among the users. */
  ghost predicate SomeoneLeft(userIds: seq<string>, managerIds: seq<string>, users: seq<UserWithPubKey>) {
    exists id :: Left(id, userIds, managerIds, users)
  }

  ghost predicate Left(id: string, userIds: seq<string>, managerIds: seq<string>, users: seq<UserWithPubKey>) {
    (id in userIds || id in managerIds) && id !in Ids(users)
  }

  ghost predicate Newcomer(a: UserWithPubKey, userIds: seq<string>, managerIds: seq<string>) {
    a.userId !in userIds && a.userId !in managerIds
  }

  /** Each user id comes with one public key. */
  ghost predicate OneKeyEach(users: seq<UserWithPubKey>) {
    forall a, b :: a in users && b in users && a.userId == b.userId ==> a == b
  }

  class Resolver {
    var newUsers: seq<UserWithPubKey>
    var usersToAddMissingKey: seq<UserWithPubKey>
    var needNewKey: bool

    constructor (currentUserIds: seq<string>, currentManagerIds: seq<string>, users: seq<UserWithPubKey>,
                 managers: seq<UserWithPubKey>, forceGenerateNewKey: bool, keyVersion: int)
      ensures Includes(users + managers, newUsers)
      ensures Unambiguous(users + managers) ==> Includes(newUsers, users + managers)
      // A new key is needed exactly when someone left, or it is asked for.
      ensures needNewKey <==> forceGenerateNewKey || SomeoneLeft(currentUserIds, currentManagerIds, newUsers)
      // The older keys go to everyone who is new, and with a key of the first version to all.
      ensures Includes(newUsers, usersToAddMissingKey)
      ensures forall a :: a in newUsers && Newcomer(a, currentUserIds, currentManagerIds) ==> a in usersToAddMissingKey
      ensures keyVersion < 2 ==> usersToAddMissingKey == newUsers
      ensures keyVersion >= 2 && OneKeyEach(newUsers) ==>
                forall a :: a in usersToAddMissingKey ==> Newcomer(a, currentUserIds, currentManagerIds)
    {
      newUsers, usersToAddMissingKey, needNewKey := [], [], false;
      new;
      newUsers := UniqueListUserWithPubKey(users, managers);
      var deletedUsersIds, addedUsersIds := Changes(currentUserIds, currentManagerIds, newUsers);
      if keyVersion < 2 {
        usersToAddMissingKey := newUsers;
      } else {
        usersToAddMissingKey := WithIdAmong(newUsers, addedUsersIds);
      }
      needNewKey := |deletedUsersIds| > 0 || forceGenerateNewKey;
    }
  }

  /** The ids of those who left and of those who came. */
  method Changes(currentUserIds: seq<string>, currentManagerIds: seq<string>, newUsers: seq<UserWithPubKey>)
    returns (deleted: seq<string>, added: seq<string>)
    ensures |deleted| > 0 <==> SomeoneLeft(currentUserIds, currentManagerIds, newUsers)
    ensures forall a :: a in newUsers && Newcomer(a, currentUserIds, currentManagerIds) ==> a.userId in added
    ensures NoRepeats(newUsers) && OneKeyEach(newUsers) ==>
              forall a :: a in newUsers && a.userId in added ==> Newcomer(a, currentUserIds, currentManagerIds)
  {
    var oldUsersIds := UniqueList(currentUserIds, currentManagerIds);
    var newUsersIds := UsersWithPubKeyToIds(newUsers);
    deleted := GetDifference(oldUsersIds, newUsersIds);
    added := GetDifference(newUsersIds, oldUsersIds);
    SomeoneLeftIs(currentUserIds, currentManagerIds, newUsers, deleted);
    IdsOf(newUsers);
    if NoRepeats(newUsers) && OneKeyEach(newUsers) { IdsNoRepeats(newUsers); }
  }

  method WithIdAmong(users: seq<UserWithPubKey>, ids: seq<string>) returns (r: seq<UserWithPubKey>)
    ensures forall a :: a in r <==> a in users && a.userId in ids
  {
    r := [];
    for i := 0 to |users|
      invariant forall a :: a in r <==> a in users[..i] && a.userId in ids
    {
      if users[i].userId in ids {
        r := r + [users[i]];
      }
    }
  }

  lemma SomeoneLeftIs(userIds: seq<string>, managerIds: seq<string>, users: seq<UserWithPubKey>, deleted: seq<string>)
    requires forall x :: x in deleted <==> (x in userIds || x in managerIds) && x !in Ids(users)
    ensures |deleted| > 0 <==> SomeoneLeft(userIds, managerIds, users)
  {
    if |deleted| > 0 {
      assert deleted[0] in deleted && Left(deleted[0], userIds, managerIds, users);
    }
    if SomeoneLeft(userIds, managerIds, users) {
      var id :| Left(id, userIds, managerIds, users);
      assert id in deleted;
    }
  }

  lemma IdsOf(users: seq<UserWithPubKey>)
    ensures forall a :: a in users ==> a.userId in Ids(users)
    ensures forall id :: id in Ids(users) ==> exists a :: a in users && a.userId == id
  {
    forall a | a in users ensures a.userId in Ids(users) {
      var i :| 0 <= i < |users| && users[i] == a;
      assert Ids(users)[i] == a.userId;
    }
    forall id | id in Ids(users) ensures exists a :: a in users && a.userId == id {
      var i :| 0 <= i < |users| && Ids(users)[i] == id;
      assert users[i] in users;
    }
  }

  lemma IdsNoRepeats(users: seq<UserWithPubKey>)
    requires NoRepeats(users) && OneKeyEach(users)
    ensures NoRepeats(Ids(users))
  {
    forall i, j | 0 <= i < j < |users| ensures Ids(users)[i] != Ids(users)[j] {
      assert users[i] in users && users[j] in users;
    }
  }
}
