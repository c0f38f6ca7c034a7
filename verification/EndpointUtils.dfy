/** List helpers shared by the container APIs, and when they compute what their names say. */
module EndpointUtils {
  datatype UserWithPubKey = UserWithPubKey(userId: string, pubKey: string)

  // ---- The order of std::string ----

  predicate Le(a: string, b: string) {
    a == [] || (b != [] && (a[0] < b[0] || (a[0] == b[0] && Le(a[1..], b[1..]))))
  }

  lemma {:induction false} LeTotal(a: string, b: string)
    ensures Le(a, b) || Le(b, a)
  {
    if a != [] && b != [] && a[0] == b[0] { LeTotal(a[1..], b[1..]); }
  }

  lemma {:induction false} LeAntisymmetric(a: string, b: string)
    requires Le(a, b) && Le(b, a)
    ensures a == b
  {
    if a != [] {
      LeAntisymmetric(a[1..], b[1..]);
      assert a == [a[0]] + a[1..] && b == [b[0]] + b[1..];
    }
  }

  lemma {:induction false} LeTransitive(a: string, b: string, c: string)
    requires Le(a, b) && Le(b, c)
    ensures Le(a, c)
  {
    if a != [] && a[0] == b[0] && b[0] == c[0] { LeTransitive(a[1..], b[1..], c[1..]); }
  }

  predicate IsSorted(s: seq<string>) {
    forall i, j :: 0 <= i < j < |s| ==> Le(s[i], s[j])
  }

  predicate NoRepeats<T(==)>(s: seq<T>) {
    forall i, j :: 0 <= i < j < |s| ==> s[i] != s[j]
  }

  function Insert(x: string, s: seq<string>): (r: seq<string>)
    requires IsSorted(s)
    ensures IsSorted(r) && multiset(r) == multiset(s) + multiset{x}
  {
    if s == [] then [x]
    else
      assert s == [s[0]] + s[1..];
      if Le(x, s[0]) then
        assert forall j :: 0 <= j < |s| ==> Le(x, s[j]) by {
          forall j | 0 < j < |s| ensures Le(x, s[j]) { LeTransitive(x, s[0], s[j]); }
        }
        [x] + s
      else
        LeTotal(x, s[0]);
        var t := Insert(x, s[1..]);
        assert forall y :: y in t ==> Le(s[0], y) by {
          forall y | y in t ensures Le(s[0], y) {
            assert y in multiset(t);
            if y != x { assert y in s[1..]; }
          }
        }
        [s[0]] + t
  }

  /** What std::sort gives: for a total order there is only one sorted permutation. */
  function Sort(s: seq<string>): (r: seq<string>)
    ensures IsSorted(r) && multiset(r) == multiset(s)
  {
    if s == [] then []
    else
      assert s == s[..|s| - 1] + [s[|s| - 1]];
      Insert(s[|s| - 1], Sort(s[..|s| - 1]))
  }

  lemma SameElements<T>(s: seq<T>, t: seq<T>)
    requires multiset(s) == multiset(t)
    ensures forall x :: x in s <==> x in t
  {
    forall x ensures x in s <==> x in t {
      assert x in s <==> x in multiset(s);
      assert x in t <==> x in multiset(t);
    }
  }

  lemma {:induction false} NoRepeatsCounts<T>(s: seq<T>)
    ensures NoRepeats(s) <==> forall x | x in multiset(s) :: multiset(s)[x] == 1
  {
    if s != [] {
      var n := |s| - 1;
      NoRepeatsCounts(s[..n]);
      assert s == s[..n] + [s[n]];
      assert NoRepeats(s) <==> NoRepeats(s[..n]) && s[n] !in s[..n];
      assert s[n] in s[..n] <==> s[n] in multiset(s[..n]);
      assert multiset(s)[s[n]] == multiset(s[..n])[s[n]] + 1;
      forall x | x in multiset(s[..n]) && multiset(s[..n])[x] != 1 ensures multiset(s)[x] != 1 && x in multiset(s) {
      }
    }
  }

  // ---- getDifference ----

  /** The elements of `s` that are not in `sub`, in order. */
  function Absent(s: seq<string>, sub: seq<string>): seq<string> {
    if s == [] then [] else Absent(s[..|s| - 1], sub) + if s[|s| - 1] in sub then [] else [s[|s| - 1]]
  }

  lemma {:induction false} AbsentIs(s: seq<string>, sub: seq<string>)
    ensures forall x :: x in Absent(s, sub) <==> x in s && x !in sub
  {
    if s != [] {
      assert s == s[..|s| - 1] + [s[|s| - 1]];
      AbsentIs(s[..|s| - 1], sub);
    }
  }

  lemma AbsentStep(s: seq<string>, sub: seq<string>, i: nat, n: nat)
    requires i <= n < |s|
    ensures Absent(s[i..n + 1], sub) == Absent(s[i..n], sub) + if s[n] in sub then [] else [s[n]]
  {
    assert s[i..n + 1][..n - i] == s[i..n];
  }

  function CommonPrefix(a: seq<string>, b: seq<string>): (i: nat)
    ensures i <= |a| && i <= |b| && a[..i] == b[..i]
    ensures i < |a| && i < |b| ==> a[i] != b[i]
  {
    if a == [] || b == [] || a[0] != b[0] then 0
    else
      var i := CommonPrefix(a[1..], b[1..]);
      assert a[..i + 1] == [a[0]] + a[1..][..i] && b[..i + 1] == [b[0]] + b[1..][..i];
      i + 1
  }

  /** The difference as it is computed: equal beginnings are skipped, and the rest of one list is
      searched for in the rest of the other. */
  function SkippingDifference(a: seq<string>, b: seq<string>): seq<string> {
    var i := CommonPrefix(a, b);
    Absent(a[i..], b[i..])
  }

  /** The elements of `baseList`, in ascending order, that the source takes to be missing from `subList`.
      For a base list without repeats these are exactly the missing ones; no missing one is ever left out. */
  method GetDifference(baseList: seq<string>, subList: seq<string>) returns (diff: seq<string>)
    ensures diff == SkippingDifference(Sort(baseList), Sort(subList))
    ensures NoRepeats(baseList) ==> forall x :: x in diff <==> x in baseList && x !in subList
    ensures forall x :: x in baseList && x !in subList ==> x in diff
    ensures forall x :: x in diff ==> x in baseList
  {
    diff := SkipAndSearch(Sort(baseList), Sort(subList));
    DifferenceOfSorted(baseList, subList);
  }

  /** The part of the method above that follows the sorting. */
  method SkipAndSearch(vec1: seq<string>, vec2: seq<string>) returns (diff: seq<string>)
    ensures diff == SkippingDifference(vec1, vec2)
  {
    diff := [];
    var i := 0;
    while i < |vec1| && i < |vec2| && vec1[i] == vec2[i]
      invariant 0 <= i <= |vec1| && i <= |vec2| && vec1[..i] == vec2[..i]
    {
      i := i + 1;
    }
    PrefixIs(vec1, vec2, i);
    for n := i to |vec1|
      invariant diff == Absent(vec1[i..n], vec2[i..])
    {
      AbsentStep(vec1, vec2[i..], i, n);
      if vec1[n] !in vec2[i..] {
        diff := diff + [vec1[n]];
      }
    }
    assert vec1[i..|vec1|] == vec1[i..];
  }

  lemma DifferenceOfSorted(baseList: seq<string>, subList: seq<string>)
    ensures var diff := SkippingDifference(Sort(baseList), Sort(subList));
            && (NoRepeats(baseList) ==> forall x :: x in diff <==> x in baseList && x !in subList)
            && (forall x :: x in baseList && x !in subList ==> x in diff)
            && (forall x :: x in diff ==> x in baseList)
  {
    var vec1, vec2 := Sort(baseList), Sort(subList);
    SkippingBounds(vec1, vec2);
    SameElements(vec1, baseList);
    SameElements(vec2, subList);
    NoRepeatsCounts(baseList);
    NoRepeatsCounts(vec1);
    SkippingExact(vec1, vec2);
  }

  lemma {:induction false} PrefixIs(a: seq<string>, b: seq<string>, i: nat)
    requires i <= |a| && i <= |b| && a[..i] == b[..i]
    requires i < |a| && i < |b| ==> a[i] != b[i]
    ensures CommonPrefix(a, b) == i
  {
    if i > 0 {
      assert a[1..][..i - 1] == a[..i][1..] && b[1..][..i - 1] == b[..i][1..];
      assert a[0] == a[..i][0] && b[0] == b[..i][0];
      PrefixIs(a[1..], b[1..], i - 1);
    }
  }

  lemma SkippingBounds(a: seq<string>, b: seq<string>)
    ensures forall x :: x in a && x !in b ==> x in SkippingDifference(a, b)
    ensures forall x :: x in SkippingDifference(a, b) ==> x in a
  {
    var i := CommonPrefix(a, b);
    AbsentIs(a[i..], b[i..]);
    assert a == a[..i] + a[i..] && b == b[..i] + b[i..];
  }

  /** The common beginning of the sorted lists ends inside a run of equal elements of the base list, and
      the other list has no more of them. */
  predicate SplitRun(a: seq<string>, b: seq<string>) {
    var i := CommonPrefix(a, b);
    0 < i < |a| && a[i - 1] == a[i] && a[i] !in b[i..]
  }

  /** Skipping is harmless exactly when it does not split a run of repeats. */
  lemma SkippingExact(a: seq<string>, b: seq<string>)
    requires IsSorted(a)
    ensures (forall x :: x in SkippingDifference(a, b) <==> x in a && x !in b) <==> !SplitRun(a, b)
    ensures NoRepeats(a) ==> !SplitRun(a, b)
  {
    var i := CommonPrefix(a, b);
    AbsentIs(a[i..], b[i..]);
    assert a == a[..i] + a[i..] && b == b[..i] + b[i..];
    if SplitRun(a, b) {
      assert a[i] in a[i..] && a[i] in SkippingDifference(a, b);
      assert a[..i][i - 1] in b[..i];
    } else {
      forall x | x in SkippingDifference(a, b) ensures x in a && x !in b {
        if x in b {
          var k :| 0 <= k < i && b[k] == x;
          var n :| i <= n < |a| && a[n] == x;
          assert a[..i][k] == b[..i][k];
          RunBetween(a, k, n, i - 1);
          RunBetween(a, k, n, i);
        }
      }
      SkippingBounds(a, b);
    }
  }

  lemma RunBetween(a: seq<string>, k: nat, n: nat, i: nat)
    requires IsSorted(a) && k <= i <= n < |a| && a[k] == a[n]
    ensures a[i] == a[k]
  {
    if k < i < n { LeAntisymmetric(a[k], a[i]); }
  }

  /** A list with a repeat can name an element that is not missing at all. */
  lemma RepeatExample()
    ensures SkippingDifference(Sort(["a", "a"]), Sort(["a"])) == ["a"]
  {
    var a: string := "a";
    assert ["a", "a"][..1] == ["a"] && ["a"][..0] == [];
    assert Sort(["a"]) == ["a"] by { assert Sort([]) == []; }
    assert Sort(["a", "a"]) == ["a", "a"];
    PrefixIs([a, a], [a], 1);
    assert [a, a][1..] == [a] && [a][1..] == [];
    assert [a][..0] == [];
    assert Absent([a], []) == [a];
  }

  // ---- Lists without repeats ----

  /** The elements of a set in ascending order, as iterating over a std::set or std::map gives them. */
  method InOrder(s: set<string>) returns (r: seq<string>)
    ensures IsSorted(r) && NoRepeats(r)
    ensures forall x :: x in r <==> x in s
  {
    r := [];
    var rest := s;
    while rest != {}
      invariant rest <= s && IsSorted(r) && NoRepeats(r)
      invariant forall x :: x in r <==> x in s - rest
      invariant forall x, y :: x in r && y in rest ==> Le(x, y)
      decreases |rest|
    {
      LeastExists(rest);
      var least :| IsLeast(least, rest);
      AppendLargest(r, least);
      r, rest := r + [least], rest - {least};
    }
  }

  predicate IsLeast(a: string, s: set<string>) {
    a in s && forall x :: x in s ==> Le(a, x)
  }

  lemma AppendLargest(r: seq<string>, x: string)
    requires IsSorted(r) && NoRepeats(r) && x !in r && forall y :: y in r ==> Le(y, x)
    ensures IsSorted(r + [x]) && NoRepeats(r + [x])
  {
    forall i | 0 <= i < |r| ensures Le(r[i], x) && r[i] != x {
      assert r[i] in r;
    }
  }

  lemma {:induction false} LeastExists(s: set<string>)
    requires s != {}
    ensures exists least :: IsLeast(least, s)
    decreases |s|
  {
    var a :| a in s;
    if s - {a} == {} {
      LeTotal(a, a);
      assert s == {a};
      assert IsLeast(a, s);
    } else {
      LeastExists(s - {a});
      var b :| IsLeast(b, s - {a});
      if Le(a, b) {
        LeTotal(a, a);
        forall x | x in s ensures Le(a, x) {
          if x != a { LeTransitive(a, b, x); }
        }
        assert IsLeast(a, s);
      } else {
        LeTotal(a, b);
        forall x | x in s ensures Le(b, x) {
          if x != a { assert x in s - {a}; }
        }
        assert IsLeast(b, s);
      }
    }
  }

  /** The elements of both lists, each once. */
  method UniqueList(list1: seq<string>, list2: seq<string>) returns (output: seq<string>)
    ensures IsSorted(output) && NoRepeats(output)
    ensures forall x :: x in output <==> x in list1 || x in list2
  {
    var input: set<string> := {};
    for i := 0 to |list1|
      invariant forall x :: x in input <==> x in list1[..i]
    {
      input := input + {list1[i]};
    }
    for i := 0 to |list2|
      invariant forall x :: x in input <==> x in list1 || x in list2[..i]
    {
      input := input + {list2[i]};
    }
    output := InOrder(input);
  }

  ghost predicate Includes<T>(all: seq<T>, some: seq<T>) {
    forall a :: a in some ==> a in all
  }

  /** What the source tells users apart by. */
  function ConcatKey(a: UserWithPubKey): string {
    a.userId + a.pubKey
  }

  /** No two different users have the same id and public key run together. */
  ghost predicate Unambiguous(users: seq<UserWithPubKey>) {
    forall a, b :: a in users && b in users && ConcatKey(a) == ConcatKey(b) ==> a == b
  }

  /** Public keys of one length rule ambiguity out. */
  lemma FixedLengthUnambiguous(users: seq<UserWithPubKey>, length: nat)
    requires forall a :: a in users ==> |a.pubKey| == length
    ensures Unambiguous(users)
  {
    forall a, b | a in users && b in users && ConcatKey(a) == ConcatKey(b) ensures a == b {
      assert a.userId == ConcatKey(a)[..|ConcatKey(a)| - length];
      assert b.userId == ConcatKey(b)[..|ConcatKey(b)| - length];
      assert a.pubKey == ConcatKey(a)[|ConcatKey(a)| - length..];
      assert b.pubKey == ConcatKey(b)[|ConcatKey(b)| - length..];
    }
  }

  /** The users of both lists, each once: all of them exactly when they are told apart. Of users that are
      not, the last one stays. */
  method UniqueListUserWithPubKey(list1: seq<UserWithPubKey>, list2: seq<UserWithPubKey>) returns (unique: seq<UserWithPubKey>)
    ensures NoRepeats(unique) && Includes(list1 + list2, unique)
    ensures forall a {:trigger Represented(unique, a)} :: a in list1 + list2 ==> Represented(unique, a)
    ensures Includes(unique, list1 + list2) <==> Unambiguous(list1 + list2)
  {
    var all := list1 + list2;
    var byKey := KeyUsers(list1, list2);
    var keys := InOrder(byKey.Keys);
    unique := [];
    for i := 0 to |keys|
      invariant |unique| == i && forall j :: 0 <= j < i ==> keys[j] in byKey && unique[j] == byKey[keys[j]]
    {
      assert keys[i] in keys;
      unique := unique + [byKey[keys[i]]];
    }
    UniqueByKey(byKey, all, keys, unique);
    ExactlyUnambiguous(all, unique);
  }

  /** The users of both lists by their keys; a later one replaces an earlier. */
  method KeyUsers(list1: seq<UserWithPubKey>, list2: seq<UserWithPubKey>) returns (byKey: map<string, UserWithPubKey>)
    ensures KeyedBy(byKey, list1 + list2)
  {
    byKey := map[];
    var all := list1 + list2;
    for i := 0 to |list1|
      invariant KeyedBy(byKey, all[..i])
    {
      byKey := AddKeyed(byKey, all, i, list1[i]);
    }
    for i := 0 to |list2|
      invariant KeyedBy(byKey, all[..|list1| + i])
    {
      byKey := AddKeyed(byKey, all, |list1| + i, list2[i]);
    }
    assert all[..|list1| + |list2|] == all;
  }

  lemma UniqueByKey(byKey: map<string, UserWithPubKey>, all: seq<UserWithPubKey>, keys: seq<string>, unique: seq<UserWithPubKey>)
    requires KeyedBy(byKey, all) && NoRepeats(keys) && (forall k :: k in keys <==> k in byKey)
    requires |unique| == |keys| && forall j :: 0 <= j < |keys| ==> keys[j] in byKey && unique[j] == byKey[keys[j]]
    ensures NoRepeats(unique) && forall a :: a in unique ==> a in all
    ensures forall a, b :: a in unique && b in unique && ConcatKey(a) == ConcatKey(b) ==> a == b
    ensures forall a :: a in all ==> Represented(unique, a)
  {
    var concatKeys := seq(|unique|, j requires 0 <= j < |unique| => ConcatKey(unique[j]));
    assert concatKeys == keys;
    forall i, j | 0 <= i < j < |unique| ensures ConcatKey(unique[i]) != ConcatKey(unique[j]) {
      assert concatKeys[i] != concatKeys[j];
    }
    EachRepresented(byKey, all, keys, unique);
  }

  lemma EachRepresented(byKey: map<string, UserWithPubKey>, all: seq<UserWithPubKey>, keys: seq<string>, unique: seq<UserWithPubKey>)
    requires KeyedBy(byKey, all) && (forall k :: k in byKey ==> k in keys)
    requires |unique| == |keys| && forall j :: 0 <= j < |keys| ==> keys[j] in byKey && unique[j] == byKey[keys[j]]
    ensures forall a :: a in all ==> Represented(unique, a)
  {
    forall a | a in all ensures Represented(unique, a) {
      KeyedAt(byKey, all, a);
      var j :| 0 <= j < |keys| && keys[j] == ConcatKey(a);
      assert unique[j] in unique;
    }
  }

  /** Some user of the list is told from `a` by nothing. */
  ghost predicate Represented(unique: seq<UserWithPubKey>, a: UserWithPubKey) {
    exists b :: b in unique && ConcatKey(b) == ConcatKey(a)
  }

  /** After the users seen so far: every one has its key in the map, with one of them under it. */
  ghost predicate KeyedBy(byKey: map<string, UserWithPubKey>, seen: seq<UserWithPubKey>) {
    && (forall k :: k in byKey ==> byKey[k] in seen && ConcatKey(byKey[k]) == k)
    && (forall j :: 0 <= j < |seen| ==> ConcatKey(seen[j]) in byKey)
  }

  lemma KeyedAt(byKey: map<string, UserWithPubKey>, seen: seq<UserWithPubKey>, a: UserWithPubKey)
    requires KeyedBy(byKey, seen) && a in seen
    ensures ConcatKey(a) in byKey
  {
  }

  function AddKeyed(byKey: map<string, UserWithPubKey>, ghost all: seq<UserWithPubKey>, ghost i: nat, a: UserWithPubKey)
    : (r: map<string, UserWithPubKey>)
    requires i < |all| && all[i] == a && KeyedBy(byKey, all[..i])
    ensures KeyedBy(r, all[..i + 1])
  {
    assert all[..i + 1] == all[..i] + [a];
    byKey[ConcatKey(a) := a]
  }

  lemma ExactlyUnambiguous(all: seq<UserWithPubKey>, unique: seq<UserWithPubKey>)
    requires NoRepeats(unique) && forall a :: a in unique ==> a in all
    requires forall a, b :: a in unique && b in unique && ConcatKey(a) == ConcatKey(b) ==> a == b
    requires forall a :: a in all ==> Represented(unique, a)
    ensures Includes(unique, all) <==> Unambiguous(all)
  {
  }

  /** Two users whose ids and keys run together alike: one of them is lost. */
  lemma AmbiguousExample()
    ensures !Unambiguous([UserWithPubKey("al", "iceKey"), UserWithPubKey("alice", "Key")])
  {
    var a, b := UserWithPubKey("al", "iceKey"), UserWithPubKey("alice", "Key");
    assert ConcatKey(a) == "aliceKey" && ConcatKey(b) == "aliceKey";
    assert [a, b][0] == a && [a, b][1] == b;
    assert |a.userId| != |b.userId|;
  }

  method UsersWithPubKeyToIds(users: seq<UserWithPubKey>) returns (ids: seq<string>)
    ensures ids == Ids(users)
  {
    ids := [];
    for i := 0 to |users|
      invariant ids == Ids(users[..i])
    {
      ids := ids + [users[i].userId];
    }
  }

  function Ids(users: seq<UserWithPubKey>): (ids: seq<string>)
    ensures |ids| == |users|
    ensures forall i | 0 <= i < |users| :: ids[i] == users[i].userId
  {
    seq(|users|, i requires 0 <= i < |users| => users[i].userId)
  }
}
