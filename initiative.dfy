/** The ordering rule of the tracker: the roster is sorted by initiative,
    highest first, with a stable sort (records of equal initiative keep their
    relative order, as the ECMAScript `Array.prototype.sort` guarantees). */
module Initiative {
  import opened Characters

  /** Initiative never increases from one record to the next. */
  ghost predicate SortedDesc(s: seq<Character>) {
    forall i, j :: 0 <= i < j < |s| ==> s[i].initiative >= s[j].initiative
  }

  /** No record of `s` has an initiative above `k`. */
  ghost predicate AtMost(s: seq<Character>, k: int) {
    forall j :: 0 <= j < |s| ==> s[j].initiative <= k
  }

  /** Places `x` in front of the first record whose initiative it reaches. */
  function Insert(x: Character, t: seq<Character>): (r: seq<Character>)
    ensures multiset(r) == multiset([x] + t)
  {
    if t == [] then [x]
    else if x.initiative >= t[0].initiative then [x] + t
    else
      assert t == [t[0]] + t[1..];
      [t[0]] + Insert(x, t[1..])
  }

  lemma ConsSorted(a: Character, rest: seq<Character>)
    requires SortedDesc(rest) && AtMost(rest, a.initiative)
    ensures SortedDesc([a] + rest)
  {
    var r := [a] + rest;
    forall i, j | 0 <= i < j < |r| ensures r[i].initiative >= r[j].initiative {
      assert r[j] == rest[j - 1];
      if i > 0 {
        assert r[i] == rest[i - 1];
      }
    }
  }

  lemma {:induction false} InsertAtMost(x: Character, t: seq<Character>, k: int)
    requires x.initiative <= k && AtMost(t, k)
    ensures AtMost(Insert(x, t), k)
  {
    if t != [] && x.initiative < t[0].initiative {
      InsertAtMost(x, t[1..], k);
      var r := [t[0]] + Insert(x, t[1..]);
      assert Insert(x, t) == r;
      forall j | 0 <= j < |r| ensures r[j].initiative <= k {
        if j > 0 {
          assert r[j] == Insert(x, t[1..])[j - 1];
        }
      }
    }
  }

  /** Inserting into a sorted roster keeps it sorted. */
  lemma {:induction false} InsertSorted(x: Character, t: seq<Character>)
    requires SortedDesc(t)
    ensures SortedDesc(Insert(x, t))
  {
    if t == [] {
      assert Insert(x, t) == [x];
    } else if x.initiative >= t[0].initiative {
      ConsSorted(x, t);
    } else {
      InsertSorted(x, t[1..]);
      InsertAtMost(x, t[1..], t[0].initiative);
      ConsSorted(t[0], Insert(x, t[1..]));
    }
  }

  /** The re-sort after each create, update and delete, with `b.initiative -
      a.initiative` as the comparator: descending initiative, and the result
      is a permutation of the input. */
  function SortByInitiative(s: seq<Character>): (r: seq<Character>)
    ensures SortedDesc(r)
    ensures multiset(r) == multiset(s)
    ensures |r| == |s|
  {
    if s == [] then []
    else
      var rest := SortByInitiative(s[1..]);
      InsertSorted(s[0], rest);
      assert s == [s[0]] + s[1..];
      Insert(s[0], rest)
  }

  /** The records of initiative `k`, in their order. */
  function WithInitiative(s: seq<Character>, k: int): (r: seq<Character>)
    ensures |r| <= |s|
  {
    if s == [] then []
    else (if s[0].initiative == k then [s[0]] else []) + WithInitiative(s[1..], k)
  }

  lemma {:induction false} WithInitiativeHas(s: seq<Character>, i: nat)
    requires i < |s|
    ensures s[i] in WithInitiative(s, s[i].initiative)
  {
    if i > 0 {
      WithInitiativeHas(s[1..], i - 1);
    }
  }

  /** Each record kept for `k` comes from `s` and has initiative `k`. */
  lemma {:induction false} InWithInitiative(s: seq<Character>, k: int, i: nat)
    requires i < |WithInitiative(s, k)|
    ensures exists j :: 0 <= j < |s| && s[j] == WithInitiative(s, k)[i]
    ensures WithInitiative(s, k)[i].initiative == k
  {
    if s[0].initiative == k && i == 0 {
      assert s[0] == WithInitiative(s, k)[0];
    } else {
      var i' := if s[0].initiative == k then i - 1 else i;
      InWithInitiative(s[1..], k, i');
      var j :| 0 <= j < |s[1..]| && s[1..][j] == WithInitiative(s[1..], k)[i'];
      assert s[j + 1] == WithInitiative(s, k)[i];
    }
  }

  lemma {:induction false} WithInitiativeAppend(a: seq<Character>, b: seq<Character>, k: int)
    ensures WithInitiative(a + b, k) == WithInitiative(a, k) + WithInitiative(b, k)
  {
    if a == [] {
      assert a + b == b;
    } else {
      var head := if a[0].initiative == k then [a[0]] else [];
      assert (a + b)[0] == a[0];
      assert (a + b)[1..] == a[1..] + b;
      WithInitiativeAppend(a[1..], b, k);
      calc {
        WithInitiative(a + b, k);
        head + WithInitiative(a[1..] + b, k);
        head + (WithInitiative(a[1..], k) + WithInitiative(b, k));
        (head + WithInitiative(a[1..], k)) + WithInitiative(b, k);
        WithInitiative(a, k) + WithInitiative(b, k);
      }
    }
  }

  /** Two records of different initiative never both survive the filter. */
  lemma FilterPairCommutes(a: Character, b: Character, k: int)
    requires a.initiative != b.initiative
    ensures WithInitiative([a], k) + WithInitiative([b], k)
         == WithInitiative([b], k) + WithInitiative([a], k)
  {
    assert WithInitiative([a], k) == [] || WithInitiative([b], k) == [];
  }

  lemma SwapFront<T>(p: seq<T>, q: seq<T>, w: seq<T>)
    requires p + q == q + p
    ensures p + (q + w) == q + (p + w)
  {
    calc {
      p + (q + w);
      (p + q) + w;
      (q + p) + w;
      q + (p + w);
    }
  }

  lemma {:induction false} InsertStable(x: Character, t: seq<Character>, k: int)
    ensures WithInitiative(Insert(x, t), k) == WithInitiative([x] + t, k)
  {
    if t != [] && x.initiative < t[0].initiative {
      var rest := t[1..];
      var ins := Insert(x, rest);
      var hx, ht, w := WithInitiative([x], k), WithInitiative([t[0]], k), WithInitiative(rest, k);
      assert Insert(x, t) == [t[0]] + ins;
      assert t == [t[0]] + rest;
      InsertStable(x, rest, k);
      WithInitiativeAppend([t[0]], ins, k);
      WithInitiativeAppend([x], rest, k);
      WithInitiativeAppend([t[0]], rest, k);
      WithInitiativeAppend([x], t, k);
      FilterPairCommutes(t[0], x, k);
      SwapFront(ht, hx, w);
    }
  }

  /** The sort is stable: for every initiative value, the records holding it
      appear in the result in the same order as in the input. */
  lemma {:induction false} SortIsStable(s: seq<Character>, k: int)
    ensures WithInitiative(SortByInitiative(s), k) == WithInitiative(s, k)
  {
    if s != [] {
      var rest := SortByInitiative(s[1..]);
      InsertStable(s[0], rest, k);
      SortIsStable(s[1..], k);
      WithInitiativeAppend([s[0]], rest, k);
      WithInitiativeAppend([s[0]], s[1..], k);
      assert s == [s[0]] + s[1..];
    }
  }

  /** Re-sorting a roster that is already in initiative order changes nothing. */
  lemma {:induction false} SortOfSortedIsIdentity(s: seq<Character>)
    requires SortedDesc(s)
    ensures SortByInitiative(s) == s
  {
    if s != [] {
      SortOfSortedIsIdentity(s[1..]);
      assert s == [s[0]] + s[1..];
    }
  }

  /** Two rosters in initiative order that agree on the records of every
      initiative value are equal. */
  lemma {:induction false} SortedArrangementIsUnique(t: seq<Character>, u: seq<Character>)
    requires SortedDesc(t) && SortedDesc(u)
    requires forall k :: WithInitiative(t, k) == WithInitiative(u, k)
    ensures t == u
    decreases |t|
  {
    if t == [] || u == [] {
      if t != [] {
        WithInitiativeHas(t, 0);
      } else if u != [] {
        WithInitiativeHas(u, 0);
      }
    } else {
      var k0, k1 := t[0].initiative, u[0].initiative;
      WithInitiativeHas(t, 0);
      WithInitiativeHas(u, 0);
      assert k0 == k1 by {
        var a :| 0 <= a < |WithInitiative(t, k1)| && WithInitiative(t, k1)[a] == u[0];
        var b :| 0 <= b < |WithInitiative(u, k0)| && WithInitiative(u, k0)[b] == t[0];
        InWithInitiative(t, k1, a);
        InWithInitiative(u, k0, b);
      }
      assert t[0] == u[0] by {
        assert WithInitiative(t, k0)[0] == t[0];
        assert WithInitiative(u, k0)[0] == u[0];
      }
      forall k ensures WithInitiative(t[1..], k) == WithInitiative(u[1..], k) {
        var head := if k0 == k then [t[0]] else [];
        assert WithInitiative(t, k) == head + WithInitiative(t[1..], k);
        assert WithInitiative(u, k) == head + WithInitiative(u[1..], k);
        assert WithInitiative(t[1..], k) == WithInitiative(t, k)[|head|..];
      }
      SortedArrangementIsUnique(t[1..], u[1..]);
      assert t == [t[0]] + t[1..];
      assert u == [u[0]] + u[1..];
    }
  }

  /** Any arrangement of `s` in initiative order that keeps the records of
      equal initiative in their input order is exactly the insertion sort's
      result; so any stable descending sort agrees with this model. */
  lemma StableSortIsUnique(s: seq<Character>, t: seq<Character>)
    requires SortedDesc(t)
    requires forall k :: WithInitiative(t, k) == WithInitiative(s, k)
    ensures t == SortByInitiative(s)
  {
    forall k ensures WithInitiative(SortByInitiative(s), k) == WithInitiative(s, k) {
      SortIsStable(s, k);
    }
    SortedArrangementIsUnique(t, SortByInitiative(s));
  }
}
