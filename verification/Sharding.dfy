// The djb2 hash and the two ways it splits work: segments over backend
// shards, and subnets over the live worker fleet.
module Sharding {
  import opened JsArithmetic
  import opened JsText

  const SEED := 5381

  // The running value of the source's loop, with JavaScript's signed `^`.
  function SignedHash(text: JsString): int {
    if text == [] then SEED
    else BitXor(SignedHash(text[..|text| - 1]) * 33, text[|text| - 1])
  }

  // The hash as it is usually defined: an unsigned fold modulo 2^32.
  function Djb2(text: JsString): (h: nat)
    ensures h < TWO32
  {
    if text == [] then SEED
    else
      var scaled := Djb2(text[..|text| - 1]) * 33 % TWO32;
      Pow2Values();
      XorBound(scaled, text[|text| - 1], 32);
      Xor(scaled, text[|text| - 1])
  }

  lemma ScaledModulo(x: int)
    ensures ToUint32(x * 33) == ToUint32(x) * 33 % TWO32
  {
    var scaled := ToUint32(x) * 33;
    assert x * 33 == (x / TWO32 * 33 + scaled / TWO32) * TWO32 + scaled % TWO32;
    ModUnique(x * 33, TWO32, x / TWO32 * 33 + scaled / TWO32, scaled % TWO32);
  }

  // The running value never leaves the signed 32-bit range, multiplying it
  // by 33 stays exact in a double, and its unsigned reading is the textbook hash.
  lemma {:induction false} SignedHashIsDjb2(text: JsString)
    ensures -TWO31 <= SignedHash(text) < TWO31
    ensures -TWO53 < SignedHash(text) * 33 < TWO53
    ensures ToUint32(SignedHash(text)) == Djb2(text)
  {
    if text != [] {
      var front, last := text[..|text| - 1], text[|text| - 1];
      SignedHashIsDjb2(front);
      ScaledModulo(SignedHash(front));
      SmallMod(last, TWO32);
      SmallMod(Djb2(text), TWO32);
    }
  }

  method StringHash(text: JsString) returns (h: nat)
    ensures h == Djb2(text)
    ensures h < TWO32
  {
    var hash := SEED;
    for i := 0 to |text|
      invariant hash == SignedHash(text[..i])
    {
      SignedHashIsDjb2(text[..i]);
      assert text[..i + 1][..i] == text[..i];
      hash := BitXor(hash * 33, text[i]);
    }
    assert text[..|text|] == text;
    SignedHashIsDjb2(text);
    h := Ushr(hash, 0);
  }

  function ShardFor(key: JsString, shardCount: nat): (shard: nat)
    requires shardCount > 0
    ensures shard < shardCount
    ensures exists q: nat :: Djb2(key) == q * shardCount + shard
  {
    QuotientExists(Djb2(key), shardCount);
    Djb2(key) % shardCount
  }

  lemma QuotientExists(h: nat, n: nat)
    requires n > 0
    ensures exists q: nat :: h == q * n + h % n
  {
    var q := h / n;
    assert h == q * n + h % n;
  }

  // Two strings small enough to work out by hand.
  lemma HashesByHand(letter: JsString)
    requires letter == Literal("a")
    ensures Djb2([]) == 5381 && Djb2(letter) == 177604
  {
    IsLetterA(letter);
    EmptyHash();
    HashNext(letter, [], 97, 5381, 177573);
    XorByHand(177573, 97);
    hide *;
  }

  lemma IsLetterA(letter: JsString)
    requires letter == Literal("a")
    ensures letter == [] + [97]
  {
  }

  lemma EmptyHash()
    ensures Djb2([]) == 5381
  {
  }

  lemma HashNext(text: JsString, front: JsString, last: CodeUnit, h: nat, scaled: nat)
    requires text == front + [last] && h == Djb2(front) && scaled == h * 33 < TWO32
    ensures Djb2(text) == Xor(scaled, last)
  {
    hide Xor;
    SmallMod(scaled, TWO32);
    assert text[..|text| - 1] == front;
  }

  lemma XorByHand(a: nat, b: nat)
    requires a == 177573 && b == 97
    ensures Xor(a, b) == 177604
  {
    hide Xor;
    XorStep(2774, 1, 1387, 0);
    XorStep(5549, 3, 2774, 1);
    XorStep(11098, 6, 5549, 3);
    XorStep(22196, 12, 11098, 6);
    XorStep(44393, 24, 22196, 12);
    XorStep(88786, 48, 44393, 24);
    XorStep(a, b, 88786, 48);
    XorZero(1387);
  }

  lemma XorStep(a: nat, b: nat, a': nat, b': nat)
    requires a > 0 && b > 0 && a' == a / 2 && b' == b / 2
    ensures Xor(a, b) == (if a % 2 != b % 2 then 1 else 0) + 2 * Xor(a', b')
  {
  }

  lemma XorZero(a: nat)
    ensures Xor(a, 0) == a
  {
  }

  // ---- The worker fleet ----

  function InsertSorted(x: JsString, sorted: seq<JsString>): seq<JsString> {
    if sorted == [] then [x]
    else if Less(x, sorted[0]) then [x] + sorted
    else [sorted[0]] + InsertSorted(x, sorted[1..])
  }

  // The distinct ids, sorted: `Array.from(new Set(ids)).sort()`.
  function Fleet(ids: seq<JsString>): seq<JsString> {
    if ids == [] then []
    else
      var rest := Fleet(ids[1..]);
      if ids[0] in ids[1..] then rest else InsertSorted(ids[0], rest)
  }

  ghost predicate StrictlySorted(s: seq<JsString>) {
    forall i, j :: 0 <= i < j < |s| ==> Less(s[i], s[j])
  }

  lemma {:induction false} InsertKeepsSorted(x: JsString, s: seq<JsString>)
    requires StrictlySorted(s) && x !in s
    ensures StrictlySorted(InsertSorted(x, s))
    ensures forall y :: y in InsertSorted(x, s) <==> y == x || y in s
  {
    if s != [] {
      if Less(x, s[0]) {
        forall j | 1 <= j < |s| ensures Less(x, s[j]) {
          LessIsTransitive(x, s[0], s[j]);
        }
      } else {
        LessIsTotal(x, s[0]);
        assert s == [s[0]] + s[1..];
        InsertKeepsSorted(x, s[1..]);
        var tail := InsertSorted(x, s[1..]);
        forall j | 0 <= j < |tail| ensures Less(s[0], tail[j]) {
          assert tail[j] in tail;
        }
      }
    }
  }

  lemma {:induction false} FleetSortedDistinct(ids: seq<JsString>)
    ensures StrictlySorted(Fleet(ids))
    ensures forall w :: w in Fleet(ids) <==> w in ids
  {
    if ids != [] {
      FleetSortedDistinct(ids[1..]);
      assert ids == [ids[0]] + ids[1..];
      if ids[0] !in ids[1..] {
        InsertKeepsSorted(ids[0], Fleet(ids[1..]));
      }
    }
  }

  lemma {:induction false} SortedIsCanonical(s: seq<JsString>, t: seq<JsString>)
    requires StrictlySorted(s) && StrictlySorted(t)
    requires forall x :: x in s <==> x in t
    ensures s == t
  {
    assert s != [] ==> s[0] in t;
    assert t != [] ==> t[0] in s;
    if s != [] {
      assert s == [s[0]] + s[1..] && t == [t[0]] + t[1..];
      assert s[0] in t && t[0] in s;
      LessIsStrict(s[0], t[0]);
      assert s[0] == t[0];
      forall x ensures x in s[1..] <==> x in t[1..] {
        LessIsStrict(s[0], s[0]);
        if x in s[1..] {
          assert x in s && x != s[0];
        }
        if x in t[1..] {
          assert x in t && x != t[0];
        }
      }
      SortedIsCanonical(s[1..], t[1..]);
    }
  }

  // Every replica that sees the same online set derives the same fleet,
  // whatever the order and repetition of the heartbeat list.
  lemma FleetIgnoresOrderAndDuplicates(ids: seq<JsString>, others: seq<JsString>)
    requires forall w :: w in ids <==> w in others
    ensures Fleet(ids) == Fleet(others)
  {
    FleetSortedDistinct(ids);
    FleetSortedDistinct(others);
    SortedIsCanonical(Fleet(ids), Fleet(others));
  }

  function IndexOf(w: JsString, fleet: seq<JsString>): (i: nat)
    requires w in fleet
    ensures i < |fleet| && fleet[i] == w && w !in fleet[..i]
  {
    if fleet[0] == w then 0 else 1 + IndexOf(w, fleet[1..])
  }

  function Filter<T>(items: seq<T>, keep: T -> bool): seq<T> {
    if items == [] then []
    else (if keep(items[0]) then [items[0]] else []) + Filter(items[1..], keep)
  }

  // The share of the work that replica `me` takes. A replica missing from the
  // online list (or an empty list) claims everything.
  function ShardWorkItems<T>(items: seq<T>, keyOf: T -> JsString, online: seq<JsString>, me: JsString): seq<T> {
    var fleet := Fleet(online);
    if |fleet| == 0 || me !in fleet then items
    else
      var myIndex := IndexOf(me, fleet);
      Filter(items, item => Djb2(keyOf(item)) % |fleet| == myIndex)
  }

  // A replica that the heartbeat list does not name, or names nobody, claims
  // everything.
  lemma UnlistedClaimsAll<T>(items: seq<T>, keyOf: T -> JsString, online: seq<JsString>, me: JsString)
    requires me !in online
    ensures ShardWorkItems(items, keyOf, online, me) == items
  {
    FleetSortedDistinct(online);
  }

  ghost function ItemOwner(key: JsString, online: seq<JsString>): (w: JsString)
    requires online != []
    ensures w in Fleet(online)
  {
    FleetSortedDistinct(online);
    assert online[0] in Fleet(online);
    Fleet(online)[Djb2(key) % |Fleet(online)|]
  }

  // Backend shards and the worker fleet split alike: an item belongs to the
  // replica at the position that is its shard.
  lemma ShardIsOwnersPosition(key: JsString, online: seq<JsString>)
    requires online != []
    ensures Fleet(online) != [] && ItemOwner(key, online) == Fleet(online)[ShardFor(key, |Fleet(online)|)]
  {
    FleetSortedDistinct(online);
    assert online[0] in Fleet(online);
  }

  // A replica that is online claims exactly the items it owns, in their
  // original order; since `ItemOwner` names one replica, shares never overlap.
  lemma {:induction false} ShareIsOwnedItems<T(!new)>(items: seq<T>, keyOf: T -> JsString, online: seq<JsString>,
                                                      me: JsString)
    requires me in online
    ensures ShardWorkItems(items, keyOf, online, me) == Filter(items, item => ItemOwner(keyOf(item), online) == me)
  {
    FleetSortedDistinct(online);
    var fleet := Fleet(online);
    var myIndex := IndexOf(me, fleet);
    forall item: T ensures (Djb2(keyOf(item)) % |fleet| == myIndex) <==> ItemOwner(keyOf(item), online) == me {
      LessIsStrict(me, me);
    }
    FilterExtensional(items, item => Djb2(keyOf(item)) % |fleet| == myIndex,
                      item => ItemOwner(keyOf(item), online) == me);
  }

  lemma {:induction false} FilterExtensional<T(!new)>(items: seq<T>, p: T -> bool, q: T -> bool)
    requires forall x :: p(x) == q(x)
    ensures Filter(items, p) == Filter(items, q)
  {
    if items != [] {
      FilterExtensional(items[1..], p, q);
    }
  }

  // All shares together, one per distinct online replica.
  ghost function AllShares<T>(items: seq<T>, keyOf: T -> JsString, online: seq<JsString>,
                              members: seq<JsString>): multiset<T> {
    if members == [] then multiset{}
    else multiset(ShardWorkItems(items, keyOf, online, members[0])) + AllShares(items, keyOf, online, members[1..])
  }

  ghost function OwnedItems<T>(items: seq<T>, keyOf: T -> JsString, online: seq<JsString>,
                               members: seq<JsString>): multiset<T>
    requires online != []
  {
    if items == [] then multiset{}
    else
      var mine := if ItemOwner(keyOf(items[0]), online) in members then multiset{items[0]} else multiset{};
      mine + OwnedItems(items[1..], keyOf, online, members)
  }

  lemma {:induction false} SharesCollectOwned<T(!new)>(items: seq<T>, keyOf: T -> JsString, online: seq<JsString>,
                                                       members: seq<JsString>)
    requires online != [] && StrictlySorted(members) && forall w :: w in members ==> w in online
    ensures AllShares(items, keyOf, online, members) == OwnedItems(items, keyOf, online, members)
  {
    if members == [] {
      NothingOwnedByNobody(items, keyOf, online);
    } else {
      assert members[0] in members;
      assert forall w :: w in members[1..] ==> w in members;
      SharesCollectOwned(items, keyOf, online, members[1..]);
      ShareIsOwnedItems(items, keyOf, online, members[0]);
      LessIsStrict(members[0], members[0]);
      assert members[0] !in members[1..];
      OwnedSplits(items, keyOf, online, members);
    }
  }

  lemma {:induction false} NothingOwnedByNobody<T>(items: seq<T>, keyOf: T -> JsString, online: seq<JsString>)
    requires online != []
    ensures OwnedItems(items, keyOf, online, []) == multiset{}
  {
    if items != [] {
      NothingOwnedByNobody(items[1..], keyOf, online);
    }
  }

  lemma FilterHead<T>(items: seq<T>, keep: T -> bool)
    requires items != []
    ensures multiset(Filter(items, keep))
         == (if keep(items[0]) then multiset{items[0]} else multiset{}) + multiset(Filter(items[1..], keep))
  {
  }

  lemma {:induction false} OwnedSplits<T>(items: seq<T>, keyOf: T -> JsString, online: seq<JsString>,
                                          members: seq<JsString>)
    requires online != [] && members != [] && members[0] !in members[1..]
    ensures OwnedItems(items, keyOf, online, members)
         == multiset(Filter(items, item => ItemOwner(keyOf(item), online) == members[0]))
           + OwnedItems(items, keyOf, online, members[1..])
  {
    if items != [] {
      OwnedSplits(items[1..], keyOf, online, members);
      FilterHead(items, item => ItemOwner(keyOf(item), online) == members[0]);
      assert forall w :: w in members <==> w == members[0] || w in members[1..];
    }
  }

  lemma {:induction false} EverythingOwned<T>(items: seq<T>, keyOf: T -> JsString, online: seq<JsString>,
                                              members: seq<JsString>)
    requires online != [] && members == Fleet(online)
    ensures OwnedItems(items, keyOf, online, members) == multiset(items)
  {
    if items != [] {
      EverythingOwned(items[1..], keyOf, online, members);
      assert ItemOwner(keyOf(items[0]), online) in members;
      assert items == [items[0]] + items[1..];
    }
  }

  // Conservation: over the whole fleet every work item is claimed exactly
  // once, even when items repeat or hash alike.
  lemma FleetPartitionsWork<T(!new)>(items: seq<T>, keyOf: T -> JsString, online: seq<JsString>)
    requires online != []
    ensures AllShares(items, keyOf, online, Fleet(online)) == multiset(items)
  {
    FleetSortedDistinct(online);
    SharesCollectOwned(items, keyOf, online, Fleet(online));
    EverythingOwned(items, keyOf, online, Fleet(online));
  }

  // The same holds when each replica read the registry for itself: all that
  // matters of a replica's own view is the set of ids in it.
  lemma ViewsAgree<T(!new)>(items: seq<T>, keyOf: T -> JsString, view: seq<JsString>, online: seq<JsString>,
                            me: JsString)
    requires forall w :: w in view <==> w in online
    ensures ShardWorkItems(items, keyOf, view, me) == ShardWorkItems(items, keyOf, online, me)
  {
    FleetIgnoresOrderAndDuplicates(view, online);
    if me in online {
      ShareIsOwnedItems(items, keyOf, view, me);
      ShareIsOwnedItems(items, keyOf, online, me);
      FilterExtensional(items, item => ItemOwner(keyOf(item), view) == me,
                        item => ItemOwner(keyOf(item), online) == me);
    } else {
      FleetSortedDistinct(online);
    }
  }
}
