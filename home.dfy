/** The roster store of the tracker page (src/pages/Home.tsx): id
    assignment, the per-record transforms applied by the handlers, and the
    store object whose `characters` field the handlers replace. */
module Home {
  import opened Characters
  import opened HitPoints
  import opened Initiative

  /** `Math.max(0, ...ids)`: the largest id, or 0 when there is none above 0. */
  function MaxId(s: seq<Character>): (m: int)
    ensures m >= 0
    ensures forall i :: 0 <= i < |s| ==> s[i].id <= m
    ensures m == 0 || exists i :: 0 <= i < |s| && s[i].id == m
  {
    if s == [] then 0
    else
      var rest := MaxId(s[1..]);
      assert forall i :: 0 < i < |s| ==> s[i] == s[1..][i - 1];
      Max(s[0].id, rest)
  }

  /** The id given to a newly created record. */
  function NextId(s: seq<Character>): (id: int)
    ensures id >= 1
    ensures forall i :: 0 <= i < |s| ==> s[i].id < id
    ensures id == 1 || exists i :: 0 <= i < |s| && s[i].id == id - 1
  {
    MaxId(s) + 1
  }

  /** No two records share an id. */
  ghost predicate UniqueIds(s: seq<Character>) {
    forall i, j :: 0 <= i < j < |s| ==> s[i].id != s[j].id
  }

  /** No record of `s` has id `id`. */
  ghost predicate Avoids(s: seq<Character>, id: int) {
    forall j :: 0 <= j < |s| ==> s[j].id != id
  }

  /** `prev.map(char => char.id === id ? f(char) : char)`. */
  function MapWhere(s: seq<Character>, id: int, f: Character -> Character): (r: seq<Character>)
    ensures |r| == |s|
    ensures forall i :: 0 <= i < |s| ==> r[i] == (if s[i].id == id then f(s[i]) else s[i])
  {
    if s == [] then []
    else [if s[0].id == id then f(s[0]) else s[0]] + MapWhere(s[1..], id, f)
  }

  /** `{ ...current, ...patch }`: every key of the patch wins; the optional
      link of the current record survives only when the patch has none. */
  function Merge(current: Character, patch: Character): (r: Character)
    ensures r.link == (if patch.link.Some? then patch.link else current.link)
    ensures r.(link := patch.link) == patch
  {
    if patch.link.Some? then patch else patch.(link := current.link)
  }

  /** `prev.filter(char => char.id !== id)`. */
  function RemoveById(s: seq<Character>, id: int): (r: seq<Character>)
    ensures Avoids(r, id)
    ensures forall c :: multiset(r)[c] == (if c.id == id then 0 else multiset(s)[c])
    ensures Avoids(s, id) ==> r == s
  {
    if s == [] then []
    else
      var rest := RemoveById(s[1..], id);
      var r := (if s[0].id != id then [s[0]] else []) + rest;
      RemoveByIdStep(s, id, rest, r);
      r
  }

  /** One step of `RemoveById`: keeping or dropping the first record and
      filtering the rest gives the filter of the whole roster. */
  lemma RemoveByIdStep(s: seq<Character>, id: int, rest: seq<Character>, r: seq<Character>)
    requires s != [] && r == (if s[0].id != id then [s[0]] else []) + rest
    requires Avoids(rest, id)
    requires forall c :: multiset(rest)[c] == (if c.id == id then 0 else multiset(s[1..])[c])
    requires Avoids(s[1..], id) ==> rest == s[1..]
    ensures Avoids(r, id)
    ensures forall c :: multiset(r)[c] == (if c.id == id then 0 else multiset(s)[c])
    ensures Avoids(s, id) ==> r == s
  {
    assert s == [s[0]] + s[1..];
    assert Avoids(s, id) ==> Avoids(s[1..], id);
  }

  /** The roster after `handleCreateCharacter`: the draft with a fresh id is
      appended, then the roster is re-sorted. */
  function Created(s: seq<Character>, draft: Character): seq<Character> {
    SortByInitiative(s + [draft.(id := NextId(s))])
  }

  /** The roster after `handleUpdateCharacter`: the record with the patch's
      id is merged with the patch, then the roster is re-sorted. */
  function Updated(s: seq<Character>, patch: Character): seq<Character> {
    SortByInitiative(MapWhere(s, patch.id, c => Merge(c, patch)))
  }

  /** The roster after `handleDelete`: records with the id are dropped, then
      the roster is re-sorted. */
  function Deleted(s: seq<Character>, id: int): seq<Character> {
    SortByInitiative(RemoveById(s, id))
  }

  /** The roster after `calculateDamage`: every record with the id gets the
      pools `hp` and its dead flag recomputed; there is no re-sort. */
  function DamagedAll(s: seq<Character>, id: int, hp: Absorbed): seq<Character> {
    MapWhere(s, id, c => Struck(c, hp))
  }

  // ----- ids stay unique -----

  lemma ConsUnique(a: Character, rest: seq<Character>)
    requires UniqueIds(rest) && Avoids(rest, a.id)
    ensures UniqueIds([a] + rest)
  {
    var r := [a] + rest;
    forall i, j | 0 <= i < j < |r| ensures r[i].id != r[j].id {
      assert r[j] == rest[j - 1];
      if i > 0 {
        assert r[i] == rest[i - 1];
      }
    }
  }

  lemma {:induction false} InsertAvoids(x: Character, t: seq<Character>, id: int)
    requires x.id != id && Avoids(t, id)
    ensures Avoids(Insert(x, t), id)
  {
    if t != [] && x.initiative < t[0].initiative {
      InsertAvoids(x, t[1..], id);
      var r := [t[0]] + Insert(x, t[1..]);
      assert Insert(x, t) == r;
      forall j | 0 <= j < |r| ensures r[j].id != id {
        if j > 0 {
          assert r[j] == Insert(x, t[1..])[j - 1];
        }
      }
    }
  }

  lemma {:induction false} SortAvoids(s: seq<Character>, id: int)
    requires Avoids(s, id)
    ensures Avoids(SortByInitiative(s), id)
  {
    if s != [] {
      SortAvoids(s[1..], id);
      InsertAvoids(s[0], SortByInitiative(s[1..]), id);
    }
  }

  lemma {:induction false} InsertKeepsIdsUnique(x: Character, t: seq<Character>)
    requires UniqueIds(t) && Avoids(t, x.id)
    ensures UniqueIds(Insert(x, t))
  {
    if t == [] {
      assert Insert(x, t) == [x];
    } else if x.initiative >= t[0].initiative {
      ConsUnique(x, t);
    } else {
      InsertKeepsIdsUnique(x, t[1..]);
      InsertAvoids(x, t[1..], t[0].id);
      ConsUnique(t[0], Insert(x, t[1..]));
    }
  }

  /** The re-sort never creates an id clash. */
  lemma {:induction false} SortKeepsIdsUnique(s: seq<Character>)
    requires UniqueIds(s)
    ensures UniqueIds(SortByInitiative(s))
  {
    if s != [] {
      SortKeepsIdsUnique(s[1..]);
      SortAvoids(s[1..], s[0].id);
      InsertKeepsIdsUnique(s[0], SortByInitiative(s[1..]));
    }
  }

  lemma {:induction false} RemoveKeepsAvoids(s: seq<Character>, id: int, other: int)
    requires Avoids(s, other)
    ensures Avoids(RemoveById(s, id), other)
  {
    if s != [] {
      assert forall j :: 0 <= j < |s| - 1 ==> s[1..][j] == s[j + 1];
      RemoveKeepsAvoids(s[1..], id, other);
    }
  }

  lemma {:induction false} RemoveKeepsIdsUnique(s: seq<Character>, id: int)
    requires UniqueIds(s)
    ensures UniqueIds(RemoveById(s, id))
  {
    if s != [] {
      RemoveKeepsIdsUnique(s[1..], id);
      if s[0].id != id {
        assert forall j :: 0 <= j < |s| - 1 ==> s[1..][j] == s[j + 1];
        RemoveKeepsAvoids(s[1..], id, s[0].id);
        ConsUnique(s[0], RemoveById(s[1..], id));
      } else {
        assert RemoveById(s, id) == RemoveById(s[1..], id);
      }
    }
  }

  // ----- create -----

  /** Create appends exactly one record, whose id is larger than every
      existing id, and leaves the roster sorted; among records of its
      initiative the new one comes last. */
  lemma CreateAddsOneRecord(s: seq<Character>, draft: Character)
    ensures var added := draft.(id := NextId(s));
            var r := Created(s, draft);
            && |r| == |s| + 1
            && multiset(r) == multiset(s) + multiset{added}
            && SortedDesc(r)
            && added.id > MaxId(s)
            && WithInitiative(r, draft.initiative)
               == WithInitiative(s, draft.initiative) + [added]
  {
    var added := draft.(id := NextId(s));
    SortIsStable(s + [added], draft.initiative);
    WithInitiativeAppend(s, [added], draft.initiative);
    assert WithInitiative([added], draft.initiative) == [added];
  }

  /** Create keeps ids unique. */
  lemma CreateKeepsIdsUnique(s: seq<Character>, draft: Character)
    requires UniqueIds(s)
    ensures UniqueIds(Created(s, draft))
  {
    var added := draft.(id := NextId(s));
    var t := s + [added];
    forall i, j | 0 <= i < j < |t| ensures t[i].id != t[j].id {
      if j == |s| {
        assert t[i] == s[i];
      } else {
        assert t[i] == s[i] && t[j] == s[j];
      }
    }
    SortKeepsIdsUnique(t);
  }

  /** On an empty roster the first record gets id 1. */
  lemma CreateOnEmpty(draft: Character)
    ensures Created([], draft) == [draft.(id := 1)]
  {
  }

  /** Creating initiative 10 and then initiative 20 orders the roster [20, 10]. */
  lemma CreateTwiceOrder(a: Character, b: Character)
    requires a.initiative == 10 && b.initiative == 20
    ensures Created(Created([], a), b) == [b.(id := 2), a.(id := 1)]
  {
    var first := Created([], a);
    assert first == [a.(id := 1)];
    assert NextId(first) == 2;
    assert first + [b.(id := 2)] == [a.(id := 1), b.(id := 2)];
  }

  // ----- update and heal -----

  /** Update keeps the roster's length and sort order, touches only the
      record with the patch's id, and keeps ids unique. */
  lemma UpdateChangesOnlyMatch(s: seq<Character>, patch: Character)
    ensures var m := MapWhere(s, patch.id, c => Merge(c, patch));
            && |Updated(s, patch)| == |s|
            && SortedDesc(Updated(s, patch))
            && multiset(Updated(s, patch)) == multiset(m)
            && (forall i :: 0 <= i < |s| && s[i].id != patch.id ==> m[i] == s[i])
            && (forall i :: 0 <= i < |s| && s[i].id == patch.id ==> m[i] == Merge(s[i], patch))
    ensures UniqueIds(s) ==> UniqueIds(Updated(s, patch))
  {
    var m := MapWhere(s, patch.id, c => Merge(c, patch));
    if UniqueIds(s) {
      assert UniqueIds(m);
      SortKeepsIdsUnique(m);
    }
  }

  /** In a roster of unique ids, updating the record at `i` replaces exactly
      that record by its merge with the patch. */
  lemma UpdateReplacesOne(s: seq<Character>, patch: Character, i: nat)
    requires UniqueIds(s) && i < |s| && s[i].id == patch.id
    ensures multiset(Updated(s, patch))
         == multiset(s) - multiset{s[i]} + multiset{Merge(s[i], patch)}
  {
    var m := MapWhere(s, patch.id, c => Merge(c, patch));
    assert m == s[i := Merge(s[i], patch)];
  }

  /** An update with an unknown id leaves a sorted roster as it was. */
  lemma UpdateUnknownIdIsNoop(s: seq<Character>, patch: Character)
    requires SortedDesc(s) && Avoids(s, patch.id)
    ensures Updated(s, patch) == s
  {
    assert MapWhere(s, patch.id, c => Merge(c, patch)) == s;
    SortOfSortedIsIdentity(s);
  }

  // ----- delete -----

  /** Delete removes exactly the records with the id, keeps every other
      record, keeps the roster sorted and its ids unique. */
  lemma DeleteRemovesExactly(s: seq<Character>, id: int)
    ensures var r := Deleted(s, id);
            && SortedDesc(r)
            && Avoids(r, id)
            && (forall c :: multiset(r)[c] == (if c.id == id then 0 else multiset(s)[c]))
    ensures UniqueIds(s) ==> UniqueIds(Deleted(s, id))
  {
    SortAvoids(RemoveById(s, id), id);
    if UniqueIds(s) {
      RemoveKeepsIdsUnique(s, id);
      SortKeepsIdsUnique(RemoveById(s, id));
    }
  }

  /** The filter keeps the order of the records it keeps: it works piece by
      piece. */
  lemma {:induction false} RemoveByIdAppend(a: seq<Character>, b: seq<Character>, id: int)
    ensures RemoveById(a + b, id) == RemoveById(a, id) + RemoveById(b, id)
  {
    if a == [] {
      assert a + b == b;
    } else {
      var head := if a[0].id != id then [a[0]] else [];
      assert (a + b)[0] == a[0];
      assert (a + b)[1..] == a[1..] + b;
      RemoveByIdAppend(a[1..], b, id);
      calc {
        RemoveById(a + b, id);
        head + RemoveById(a[1..] + b, id);
        head + (RemoveById(a[1..], id) + RemoveById(b, id));
        { ConcatAssoc(head, RemoveById(a[1..], id), RemoveById(b, id)); }
        (head + RemoveById(a[1..], id)) + RemoveById(b, id);
        RemoveById(a, id) + RemoveById(b, id);
      }
    }
  }

  /** Filtering by id and selecting one initiative value commute. */
  lemma {:induction false} RemoveCommutesWithInitiative(s: seq<Character>, id: int, k: int)
    ensures WithInitiative(RemoveById(s, id), k) == RemoveById(WithInitiative(s, k), id)
  {
    if s != [] {
      var x, t := [s[0]], s[1..];
      assert s == x + t;
      RemoveCommutesWithInitiative(t, id, k);
      RemoveCommutesOne(s[0], id, k);
      calc {
        WithInitiative(RemoveById(s, id), k);
        { RemoveByIdAppend(x, t, id); }
        WithInitiative(RemoveById(x, id) + RemoveById(t, id), k);
        { WithInitiativeAppend(RemoveById(x, id), RemoveById(t, id), k); }
        WithInitiative(RemoveById(x, id), k) + WithInitiative(RemoveById(t, id), k);
        RemoveById(WithInitiative(x, k), id) + RemoveById(WithInitiative(t, k), id);
        { RemoveByIdAppend(WithInitiative(x, k), WithInitiative(t, k), id); }
        RemoveById(WithInitiative(x, k) + WithInitiative(t, k), id);
        { WithInitiativeAppend(x, t, k); }
        RemoveById(WithInitiative(s, k), id);
      }
    }
  }

  /** The one-record case of `RemoveCommutesWithInitiative`. */
  lemma RemoveCommutesOne(c: Character, id: int, k: int)
    ensures WithInitiative(RemoveById([c], id), k) == RemoveById(WithInitiative([c], k), id)
  {
    assert [c][1..] == [];
    assert RemoveById([c], id) == if c.id != id then [c] else [];
    assert WithInitiative([c], k) == if c.initiative == k then [c] else [];
  }

  /** Among the records of one initiative, delete keeps the survivors in
      their roster order: ties are not reshuffled. */
  lemma DeleteKeepsTieOrder(s: seq<Character>, id: int, k: int)
    ensures WithInitiative(Deleted(s, id), k) == RemoveById(WithInitiative(s, k), id)
  {
    SortIsStable(RemoveById(s, id), k);
    RemoveCommutesWithInitiative(s, id, k);
  }

  /** A delete with an unknown id leaves a sorted roster as it was. */
  lemma DeleteUnknownIdIsNoop(s: seq<Character>, id: int)
    requires SortedDesc(s) && Avoids(s, id)
    ensures Deleted(s, id) == s
  {
    SortOfSortedIsIdentity(s);
  }

  // ----- damage -----

  /** Damage changes only the records with the target's id, keeps the
      length, and keeps both the sort order and unique ids, although the
      roster is not re-sorted. */
  lemma DamageChangesOnlyMatch(s: seq<Character>, id: int, hp: Absorbed)
    ensures var r := DamagedAll(s, id, hp);
            && |r| == |s|
            && (forall i :: 0 <= i < |s| && s[i].id != id ==> r[i] == s[i])
            && (forall i :: 0 <= i < |s| && s[i].id == id ==> r[i] == Struck(s[i], hp))
    ensures SortedDesc(s) ==> SortedDesc(DamagedAll(s, id, hp))
    ensures UniqueIds(s) ==> UniqueIds(DamagedAll(s, id, hp))
    ensures Avoids(s, id) ==> DamagedAll(s, id, hp) == s
  {
    var r := DamagedAll(s, id, hp);
    assert forall i :: 0 <= i < |s| ==> r[i].id == s[i].id && r[i].initiative == s[i].initiative;
  }

  /** The stored roster. Every handler replaces `characters` wholesale. */
  class Store {
    var characters: seq<Character>

    /** What every handler keeps: unique ids and initiative order. */
    ghost predicate Valid()
      reads this
    {
      UniqueIds(characters) && SortedDesc(characters)
    }

    /** Initial state: the parsed stored roster, or an empty one when nothing
        is stored or the stored text does not parse (`None`). */
    constructor Load(stored: Option<seq<Character>>)
      ensures characters == (if stored.Some? then stored.value else [])
      ensures stored.None? ==> Valid()
    {
      characters := if stored.Some? then stored.value else [];
    }

    /** `handleCreateCharacter`. */
    method Create(draft: Character)
      modifies this
      ensures characters == Created(old(characters), draft)
      ensures |characters| == |old(characters)| + 1
      ensures old(Valid()) ==> Valid()
    {
      var nextId := NextId(characters);
      ghost var before := characters;
      characters := characters + [draft.(id := nextId)];
      characters := SortByInitiative(characters);
      CreateAddsOneRecord(before, draft);
      if UniqueIds(before) {
        CreateKeepsIdsUnique(before, draft);
      }
    }

    /** `handleUpdateCharacter`. */
    method Update(patch: Character)
      modifies this
      ensures characters == Updated(old(characters), patch)
      ensures old(Valid()) ==> Valid()
    {
      ghost var before := characters;
      characters := MapWhere(characters, patch.id, c => Merge(c, patch));
      characters := SortByInitiative(characters);
      UpdateChangesOnlyMatch(before, patch);
    }

    /** `handleDelete`. */
    method Delete(id: int)
      modifies this
      ensures characters == Deleted(old(characters), id)
      ensures old(Valid()) ==> Valid()
    {
      ghost var before := characters;
      characters := RemoveById(characters, id);
      characters := SortByInitiative(characters);
      DeleteRemovesExactly(before, id);
    }

    /** The heal dialog's submit: the healed copy of the selected record goes
        through `handleUpdateCharacter`. */
    method Heal(target: Character, amount: int, tempAmount: int)
      modifies this
      ensures characters == Updated(old(characters), Healed(target, amount, tempAmount))
      ensures old(Valid()) ==> Valid()
    {
      Update(Healed(target, amount, tempAmount));
    }

    /** `calculateDamage`: the pools are computed from the selected record,
        the dead flag from the stored one. */
    method Damage(target: Character, amount: int)
      modifies this
      ensures characters
           == DamagedAll(old(characters), target.id,
                         AbsorbDamage(target.tempHp, target.currentHp, amount))
      ensures old(Valid()) ==> Valid()
    {
      var tempHp, currentHp := CalculateDamage(target, amount);
      ghost var before := characters;
      characters := DamagedAll(characters, target.id, Absorbed(tempHp, currentHp));
      DamageChangesOnlyMatch(before, target.id, Absorbed(tempHp, currentHp));
    }
  }
}
