/** The sort and the grouping that precede the pairing: the log is sorted by
    (driver, plate, timestamp) with a stable sort, then split into one group per
    (driver, plate), the groups taken in ascending key order. */
module Ordering {
  import opened Records

  /** Python's `<=` on str: lexicographic by code point, a proper prefix sorts first. */
  predicate StrLe(a: string, b: string)
  {
    |a| == 0 || (|b| > 0 && (a[0] < b[0] || (a[0] == b[0] && StrLe(a[1..], b[1..]))))
  }

  lemma {:induction false} StrLeTotal(a: string, b: string)
    ensures StrLe(a, b) || StrLe(b, a)
  {
    if |a| > 0 && |b| > 0 && a[0] == b[0] {
      StrLeTotal(a[1..], b[1..]);
    }
  }

  lemma {:induction false} StrLeAntisymmetric(a: string, b: string)
    requires StrLe(a, b) && StrLe(b, a)
    ensures a == b
  {
    if |a| > 0 {
      StrLeAntisymmetric(a[1..], b[1..]);
      assert a == [a[0]] + a[1..];
      assert b == [b[0]] + b[1..];
    }
  }

  lemma {:induction false} StrLeTransitive(a: string, b: string, c: string)
    requires StrLe(a, b) && StrLe(b, c)
    ensures StrLe(a, c)
  {
    if |a| > 0 && a[0] == b[0] && b[0] == c[0] {
      StrLeTransitive(a[1..], b[1..], c[1..]);
    }
  }

  /** Tuple order on (driver, plate). */
  predicate GroupKeyLe(a: GroupKey, b: GroupKey)
  {
    if a.driver != b.driver then StrLe(a.driver, b.driver) else StrLe(a.plate, b.plate)
  }

  predicate GroupKeyLt(a: GroupKey, b: GroupKey) { GroupKeyLe(a, b) && a != b }

  lemma GroupKeyLeTotal(a: GroupKey, b: GroupKey)
    ensures GroupKeyLe(a, b) || GroupKeyLe(b, a)
  {
    StrLeTotal(a.driver, b.driver);
    StrLeTotal(a.plate, b.plate);
  }

  lemma GroupKeyLeAntisymmetric(a: GroupKey, b: GroupKey)
    requires GroupKeyLe(a, b) && GroupKeyLe(b, a)
    ensures a == b
  {
    if a.driver != b.driver {
      StrLeAntisymmetric(a.driver, b.driver);
    } else {
      StrLeAntisymmetric(a.plate, b.plate);
    }
  }

  lemma GroupKeyLeTransitive(a: GroupKey, b: GroupKey, c: GroupKey)
    requires GroupKeyLe(a, b) && GroupKeyLe(b, c)
    ensures GroupKeyLe(a, c)
  {
    if a.driver != b.driver && b.driver != c.driver {
      StrLeTransitive(a.driver, b.driver, c.driver);
      if a.driver == c.driver {
        StrLeAntisymmetric(a.driver, b.driver);
      }
    } else if a.driver == b.driver && b.driver == c.driver {
      StrLeTransitive(a.plate, b.plate, c.plate);
    }
  }

  /** The sort order of the log: tuple order on (driver, plate, timestamp). */
  predicate KeyLe(x: Event, y: Event)
  {
    if KeyOf(x) != KeyOf(y) then GroupKeyLe(KeyOf(x), KeyOf(y)) else x.time <= y.time
  }

  lemma KeyLeTotal(x: Event, y: Event)
    ensures KeyLe(x, y) || KeyLe(y, x)
  {
    GroupKeyLeTotal(KeyOf(x), KeyOf(y));
  }

  lemma KeyLeTransitive(x: Event, y: Event, z: Event)
    requires KeyLe(x, y) && KeyLe(y, z)
    ensures KeyLe(x, z)
  {
    var a, b, c := KeyOf(x), KeyOf(y), KeyOf(z);
    if a != b && b != c {
      GroupKeyLeTransitive(a, b, c);
      if a == c {
        GroupKeyLeAntisymmetric(a, b);
      }
    }
  }

  predicate Sorted(s: seq<Event>)
  {
    forall i, j | 0 <= i < j < |s| :: KeyLe(s[i], s[j])
  }

  /** Places x after every element of S that does not sort after it, so an event that
      was later in the input stays after the events it ties with. */
  function Insert(S: seq<Event>, x: Event): (r: seq<Event>)
    ensures multiset(r) == multiset(S) + multiset{x}
  {
    if S == [] || KeyLe(S[|S| - 1], x) then S + [x]
    else
      assert S == S[..|S| - 1] + [S[|S| - 1]];
      Insert(S[..|S| - 1], x) + [S[|S| - 1]]
  }

  lemma {:induction false} InsertSorted(S: seq<Event>, x: Event)
    requires Sorted(S)
    ensures Sorted(Insert(S, x))
  {
    if S == [] || KeyLe(S[|S| - 1], x) {
      var r := S + [x];
      forall i, j | 0 <= i < j < |r| ensures KeyLe(r[i], r[j]) {
        if j == |S| && i < |S| - 1 {
          KeyLeTransitive(S[i], S[|S| - 1], x);
        }
      }
    } else {
      var init, last := S[..|S| - 1], S[|S| - 1];
      InsertSorted(init, x);
      var R := Insert(init, x);
      KeyLeTotal(last, x);
      forall y | y in R ensures KeyLe(y, last) {
        assert y in multiset(R);
        if y != x {
          assert y in multiset(init);
          var i :| 0 <= i < |init| && init[i] == y;
          assert S[i] == y;
        }
      }
      var r := R + [last];
      forall i, j | 0 <= i < j < |r| ensures KeyLe(r[i], r[j]) {
        if j == |R| {
          assert r[i] in R;
        } else {
          assert r[i] == R[i] && r[j] == R[j];
        }
      }
    }
  }

  /** The stable sort of the log by (driver, plate, timestamp). */
  function SortEvents(es: seq<Event>): (r: seq<Event>)
    ensures Sorted(r)
    ensures multiset(r) == multiset(es)
  {
    if es == [] then []
    else
      var S := SortEvents(es[..|es| - 1]);
      InsertSorted(S, es[|es| - 1]);
      assert es == es[..|es| - 1] + [es[|es| - 1]];
      Insert(S, es[|es| - 1])
  }

  /** The events of s that tie on the whole sort key (driver, plate, timestamp) k, in order. */
  function Ties(s: seq<Event>, k: (GroupKey, int)): (r: seq<Event>)
  {
    if s == [] then []
    else
      var last := s[|s| - 1];
      Ties(s[..|s| - 1], k) + (if (KeyOf(last), last.time) == k then [last] else [])
  }

  lemma {:induction false} InsertTies(S: seq<Event>, x: Event, k: (GroupKey, int))
    ensures Ties(Insert(S, x), k) == Ties(S, k) + (if (KeyOf(x), x.time) == k then [x] else [])
  {
    if S == [] || KeyLe(S[|S| - 1], x) {
      assert (S + [x])[..|S|] == S;
    } else {
      var init, last := S[..|S| - 1], S[|S| - 1];
      InsertTies(init, x, k);
      var R := Insert(init, x);
      assert Insert(S, x) == R + [last];
      assert (R + [last])[..|R|] == R;
      var X := if (KeyOf(x), x.time) == k then [x] else [];
      var L := if (KeyOf(last), last.time) == k then [last] else [];
      assert Ties(R + [last], k) == Ties(R, k) + L;
      assert Ties(S, k) == Ties(init, k) + L;
      assert X == [] || L == [];
      if X == [] {
        assert Ties(init, k) + X == Ties(init, k);
        assert Ties(S, k) + X == Ties(S, k);
      } else {
        assert L == [];
        assert Ties(R, k) + L == Ties(R, k);
        assert Ties(init, k) + L == Ties(init, k);
      }
    }
  }

  /** Stability: events that tie on the whole sort key keep their input order. */
  lemma {:induction false} SortStable(es: seq<Event>, k: (GroupKey, int))
    ensures Ties(SortEvents(es), k) == Ties(es, k)
  {
    if es != [] {
      SortStable(es[..|es| - 1], k);
      InsertTies(SortEvents(es[..|es| - 1]), es[|es| - 1], k);
    }
  }

  /** The group of key k: the events of s with that (driver, plate), in order. */
  function GroupOf(s: seq<Event>, k: GroupKey): (g: seq<Event>)
    ensures |g| <= |s|
  {
    if s == [] then []
    else GroupOf(s[..|s| - 1], k) + (if KeyOf(s[|s| - 1]) == k then [s[|s| - 1]] else [])
  }

  /** A group holds only events of the log that carry its key. */
  lemma {:induction false} GroupOfMembers(s: seq<Event>, k: GroupKey)
    ensures forall e | e in GroupOf(s, k) :: e in s && KeyOf(e) == k
  {
    if s != [] {
      GroupOfMembers(s[..|s| - 1], k);
    }
  }

  /** The keys of the groups of s, each once, in order of first appearance. */
  function GroupKeys(s: seq<Event>): (ks: seq<GroupKey>)
    ensures forall i, j | 0 <= i < j < |ks| :: ks[i] != ks[j]
  {
    if s == [] then []
    else
      var ks := GroupKeys(s[..|s| - 1]);
      var k := KeyOf(s[|s| - 1]);
      if k in ks then ks else ks + [k]
  }

  /** The group keys are exactly the (driver, plate) pairs that occur in the log. */
  lemma {:induction false} GroupKeysCover(s: seq<Event>)
    ensures forall e | e in s :: KeyOf(e) in GroupKeys(s)
    ensures forall k | k in GroupKeys(s) :: exists e | e in s :: KeyOf(e) == k
  {
    if s != [] {
      var init, x := s[..|s| - 1], s[|s| - 1];
      GroupKeysCover(init);
      assert s == init + [x];
      assert forall e | e in s :: e in init || e == x;
    }
  }

  /** On a sorted log the groups come out in strictly ascending key order, which is the
      order in which a sorted groupby enumerates them. */
  lemma {:induction false} GroupKeysAscending(s: seq<Event>)
    requires Sorted(s)
    ensures forall i, j | 0 <= i < j < |GroupKeys(s)| :: GroupKeyLt(GroupKeys(s)[i], GroupKeys(s)[j])
    ensures s != [] ==> GroupKeys(s)[|GroupKeys(s)| - 1] == KeyOf(s[|s| - 1])
  {
    if s != [] {
      var init, x := s[..|s| - 1], s[|s| - 1];
      assert Sorted(init);
      GroupKeysAscending(init);
      var ks := GroupKeys(init);
      if ks != [] {
        var y := init[|init| - 1];
        assert KeyLe(y, x);
        var top := ks[|ks| - 1];
        assert top == KeyOf(y);
        if KeyOf(x) != top {
          assert GroupKeyLt(top, KeyOf(x));
          forall i | 0 <= i < |ks| ensures GroupKeyLt(ks[i], KeyOf(x)) {
            if i < |ks| - 1 {
              GroupKeyLeTransitive(ks[i], top, KeyOf(x));
              if ks[i] == KeyOf(x) {
                GroupKeyLeAntisymmetric(top, KeyOf(x));
              }
            }
          }
          assert KeyOf(x) !in ks;
        }
      }
    }
  }

  /** The group of k in a sorted log is ordered by timestamp. */
  lemma {:induction false} SortedGroupIsTimeSorted(s: seq<Event>, k: GroupKey)
    requires Sorted(s)
    ensures TimeSorted(GroupOf(s, k))
  {
    if s != [] {
      var init, x := s[..|s| - 1], s[|s| - 1];
      assert Sorted(init);
      SortedGroupIsTimeSorted(init, k);
      var g := GroupOf(init, k);
      GroupOfMembers(init, k);
      if KeyOf(x) == k {
        forall y | y in g ensures y.time <= x.time {
          var i :| 0 <= i < |init| && init[i] == y;
          assert KeyLe(s[i], s[|s| - 1]);
        }
        var r := g + [x];
        forall i, j | 0 <= i < j < |r| ensures r[i].time <= r[j].time {
          if j == |g| {
            assert r[i] in g;
          } else {
            assert r[i] == g[i] && r[j] == g[j];
          }
        }
      }
    }
  }

  /** Within one group, the ties of a sort key are the ties of the whole log. */
  lemma {:induction false} GroupTies(s: seq<Event>, k: GroupKey, t: int)
    ensures Ties(GroupOf(s, k), (k, t)) == Ties(s, (k, t))
  {
    if s != [] {
      var init, x := s[..|s| - 1], s[|s| - 1];
      GroupTies(init, k, t);
      var g := GroupOf(init, k);
      var T := if (KeyOf(x), x.time) == (k, t) then [x] else [];
      assert Ties(s, (k, t)) == Ties(init, (k, t)) + T;
      if KeyOf(x) == k {
        assert GroupOf(s, k) == g + [x];
        assert (g + [x])[..|g|] == g;
        assert Ties(g + [x], (k, t)) == Ties(g, (k, t)) + T;
      } else {
        assert GroupOf(s, k) == g;
        assert T == [];
      }
    }
  }

  lemma {:induction false} GroupMultiplicity(s: seq<Event>, k: GroupKey, y: Event)
    ensures multiset(GroupOf(s, k))[y] == if KeyOf(y) == k then multiset(s)[y] else 0
  {
    if s != [] {
      var init, x := s[..|s| - 1], s[|s| - 1];
      GroupMultiplicity(init, k, y);
      assert s == init + [x];
    }
  }

  /** The group of k holds the same events before and after the sort. */
  lemma GroupOfPermutation(a: seq<Event>, b: seq<Event>, k: GroupKey)
    requires multiset(a) == multiset(b)
    ensures multiset(GroupOf(a, k)) == multiset(GroupOf(b, k))
  {
    forall y ensures multiset(GroupOf(a, k))[y] == multiset(GroupOf(b, k))[y] {
      GroupMultiplicity(a, k, y);
      GroupMultiplicity(b, k, y);
    }
  }

  /** What the pairing receives for key k: exactly the input events of that driver and
      plate, ordered by timestamp, with events of equal timestamp in input order. */
  lemma SortedGroups(es: seq<Event>, k: GroupKey, t: int)
    ensures TimeSorted(GroupOf(SortEvents(es), k))
    ensures multiset(GroupOf(SortEvents(es), k)) == multiset(GroupOf(es, k))
    ensures Ties(GroupOf(SortEvents(es), k), (k, t)) == Ties(GroupOf(es, k), (k, t))
  {
    var s := SortEvents(es);
    SortedGroupIsTimeSorted(s, k);
    GroupOfPermutation(s, es, k);
    GroupTies(s, k, t);
    GroupTies(es, k, t);
    SortStable(es, (k, t));
  }

  /** Sorting does not change how many events of a kind the log holds. */
  lemma {:induction false} InsertCount(S: seq<Event>, x: Event, kind: string)
    ensures CountKind(Insert(S, x), kind) == CountKind(S, kind) + (if x.kind == kind then 1 else 0)
  {
    if S == [] || KeyLe(S[|S| - 1], x) {
      assert (S + [x])[..|S|] == S;
    } else {
      var init, last := S[..|S| - 1], S[|S| - 1];
      InsertCount(init, x, kind);
      var R := Insert(init, x);
      assert (R + [last])[..|R|] == R;
    }
  }

  lemma {:induction false} SortCount(es: seq<Event>, kind: string)
    ensures CountKind(SortEvents(es), kind) == CountKind(es, kind)
  {
    if es != [] {
      SortCount(es[..|es| - 1], kind);
      InsertCount(SortEvents(es[..|es| - 1]), es[|es| - 1], kind);
    }
  }

  /** The sum over the keys ks of the number of events of a kind in each group. */
  function GroupCount(s: seq<Event>, ks: seq<GroupKey>, kind: string): (n: nat)
  {
    if ks == [] then 0
    else GroupCount(s, ks[..|ks| - 1], kind) + CountKind(GroupOf(s, ks[|ks| - 1]), kind)
  }

  lemma {:induction false} GroupCountSnoc(s: seq<Event>, x: Event, ks: seq<GroupKey>, kind: string)
    requires forall i, j | 0 <= i < j < |ks| :: ks[i] != ks[j]
    ensures GroupCount(s + [x], ks, kind) ==
            GroupCount(s, ks, kind) + (if KeyOf(x) in ks && x.kind == kind then 1 else 0)
  {
    assert (s + [x])[..|s|] == s;
    if ks != [] {
      var ks0, k := ks[..|ks| - 1], ks[|ks| - 1];
      GroupCountSnoc(s, x, ks0, kind);
      assert ks == ks0 + [k];
      assert KeyOf(x) in ks <==> KeyOf(x) in ks0 || KeyOf(x) == k;
      var g := GroupOf(s, k);
      var one := if x.kind == kind then 1 else 0;
      assert GroupCount(s, ks, kind) == GroupCount(s, ks0, kind) + CountKind(g, kind);
      assert GroupCount(s + [x], ks, kind) == GroupCount(s + [x], ks0, kind) + CountKind(GroupOf(s + [x], k), kind);
      if KeyOf(x) == k {
        assert KeyOf(x) !in ks0;
        assert GroupOf(s + [x], k) == g + [x];
        assert (g + [x])[..|g|] == g;
        assert CountKind(g + [x], kind) == CountKind(g, kind) + one;
      } else {
        assert GroupOf(s + [x], k) == g;
      }
    }
  }

  /** An event whose key is new starts a group of its own. */
  lemma NewGroup(init: seq<Event>, x: Event)
    requires KeyOf(x) !in GroupKeys(init)
    ensures GroupOf(init + [x], KeyOf(x)) == [x]
  {
    GroupOfMembers(init, KeyOf(x));
    GroupKeysCover(init);
    if GroupOf(init, KeyOf(x)) != [] {
      assert false;
    }
    assert (init + [x])[..|init|] == init;
  }

  /** Adding a key to the list adds the count of its group. */
  lemma GroupCountExtend(s: seq<Event>, ks: seq<GroupKey>, k: GroupKey, kind: string)
    ensures GroupCount(s, ks + [k], kind) == GroupCount(s, ks, kind) + CountKind(GroupOf(s, k), kind)
  {
  }

  /** A nonempty log is its prefix followed by its last event. */
  lemma LastSplit(s: seq<Event>)
    requires s != []
    ensures s == s[..|s| - 1] + [s[|s| - 1]]
  {
  }

  /** The groups partition the log: counted group by group, every event is counted once. */
  lemma {:induction false} GroupsPartition(s: seq<Event>, kind: string)
    ensures GroupCount(s, GroupKeys(s), kind) == CountKind(s, kind)
  {
    if s != [] {
      var init, x := s[..|s| - 1], s[|s| - 1];
      GroupsPartition(init, kind);
      var ks := GroupKeys(init);
      var kx := KeyOf(x);
      LastSplit(s);
      GroupCountSnoc(init, x, ks, kind);
      if kx !in ks {
        NewGroup(init, x);
        assert [x][..0] == [];
        GroupCountExtend(s, ks, kx, kind);
      }
    }
  }
}
