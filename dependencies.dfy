/** The reverse-dependency table of a widget, as a value.

    A widget records which other entities link to it in a dictionary keyed by
    the dependant's id.  Registering stores the entity under its id; removing
    stores `null` in that slot instead of deleting the key.  The listing of
    dependants walks the keys (integer-like keys come out in ascending order),
    reads each slot and drops the empty ones.

    This module models that table on values: `Add` and `Remove` return the new
    table or the error `WidgetBase` raises, `Dependants` is the listing, and the
    lemmas relate them.  The class in module `Widgets` keeps such a table in a
    field and is specified against these functions.
 */
module Dependencies {

  /** The identity state of an entity: not yet attached to a document, attached
      under an id minted by the document, or disposed for good. */
  datatype Identity = Unattached | Attached(n: nat) | Disposed

  /** The errors the table operations raise. */
  datatype DepError =
    | NotRegistered               // the dependant has no positive id
    | AlreadyDependant(key: nat)  // the dependant's slot already holds an entity
    | NotADependant(id: Identity) // nothing is stored under the entity's identity

  datatype Result<R> = Ok(value: R) | Err(error: DepError)

  /** A slot is `Some(entity)` while the dependant is registered and `None`
      once it has been removed; a key never registered is absent. */
  type Table<T> = map<nat, Option<T>>

  datatype Option<T> = None | Some(value: T)

  /** An entity may be registered as a dependant only with a positive id. */
  predicate IsRegistered(id: Identity)
  {
    id.Attached? && id.n > 0
  }

  /** The table holds an entity in the slot that `id` looks up.  An unattached
      or disposed identity never names a slot. */
  predicate IsLive<T>(t: Table<T>, id: Identity)
  {
    id.Attached? && id.n in t && t[id.n].Some?
  }

  /** Some slot of the table holds `e`. */
  ghost predicate Holds<T>(t: Table<T>, e: T)
  {
    exists k :: k in t && t[k] == Some(e)
  }

  /** The ids whose slot currently holds an entity. */
  ghost function LiveIds<T>(t: Table<T>): set<nat>
  {
    set k | k in t && t[k].Some?
  }

  /** Registers `e`, whose identity is `id`, as a dependant. */
  function Add<T>(t: Table<T>, id: Identity, e: T): (r: Result<Table<T>>)
    ensures r.Ok? <==> IsRegistered(id) && !IsLive(t, id)
    ensures r.Err? ==> r.error == (if IsRegistered(id) then AlreadyDependant(id.n) else NotRegistered)
    ensures r.Ok? ==> r.value.Keys == t.Keys + {id.n} && r.value[id.n] == Some(e)
    ensures r.Ok? ==> forall k :: k in t && k != id.n ==> r.value[k] == t[k]
    ensures r.Ok? ==> id.n !in LiveIds(t) && LiveIds(r.value) == LiveIds(t) + {id.n}
  {
    if !IsRegistered(id) then Err(NotRegistered)
    else if id.n in t && t[id.n].Some? then Err(AlreadyDependant(id.n))
    else Ok(t[id.n := Some(e)])
  }

  /** Unregisters the dependant whose identity is `id`: its slot is emptied,
      and the key stays. */
  function Remove<T>(t: Table<T>, id: Identity): (r: Result<Table<T>>)
    ensures r.Ok? <==> IsLive(t, id)
    ensures r.Err? ==> r.error == NotADependant(id)
    ensures r.Ok? ==> r.value.Keys == t.Keys && r.value[id.n] == None
    ensures r.Ok? ==> forall k :: k in t && k != id.n ==> r.value[k] == t[k]
    ensures r.Ok? ==> id.n in LiveIds(t) && LiveIds(r.value) == LiveIds(t) - {id.n}
  {
    if IsLive(t, id) then Ok(t[id.n := None]) else Err(NotADependant(id))
  }

  // ---------------------------------------------------------------------------
  // Listing the dependants: keys in ascending order, mapped to their slots,
  // with the empty slots filtered out.

  predicate Increasing(s: seq<nat>)
  {
    forall i, j :: 0 <= i < j < |s| ==> s[i] < s[j]
  }

  /** A set of ids holding `x` has a least element, found by descending
      from `x` while a smaller element exists. */
  lemma {:induction false} MinBelow(s: set<nat>, x: nat)
    requires x in s
    ensures exists m :: m in s && forall k :: k in s ==> m <= k
    decreases x
  {
    if exists y :: y in s && y < x {
      var y :| y in s && y < x;
      MinBelow(s, y);
    } else {
      assert forall k :: k in s ==> x <= k;
    }
  }

  /** Prefixing an increasing sequence with a smaller id keeps it increasing. */
  lemma IncreasingCons(x: nat, s: seq<nat>)
    requires Increasing(s)
    requires forall k :: k in s ==> x < k
    ensures Increasing([x] + s)
  {
    forall i, j | 0 <= i < j < |[x] + s|
      ensures ([x] + s)[i] < ([x] + s)[j]
    {
      if i == 0 { assert s[j - 1] in s; }
    }
  }

  /** The least element of a non-empty set of ids. */
  function Min(s: set<nat>): (m: nat)
    requires s != {}
    ensures m in s && forall k :: k in s ==> m <= k
  {
    var x :| x in s;
    MinBelow(s, x);
    var m :| m in s && forall k :: k in s ==> m <= k;
    m
  }

  /** The keys of a table in the order they are enumerated: ascending. */
  function SortedKeys(s: set<nat>): (r: seq<nat>)
    ensures |r| == |s|
    ensures forall k :: k in r <==> k in s
    ensures Increasing(r)
    decreases s
  {
    if s == {} then []
    else
      var m := Min(s);
      [m] + SortedKeys(s - {m})
  }

  /** The slot under each key, in the order of `keys`. */
  function Slots<T>(t: Table<T>, keys: seq<nat>): (s: seq<Option<T>>)
    requires forall k :: k in keys ==> k in t
    ensures |s| == |keys|
    ensures forall i :: 0 <= i < |keys| ==> s[i] == t[keys[i]]
  {
    if keys == [] then [] else [t[keys[0]]] + Slots(t, keys[1..])
  }

  /** The entities held by the non-empty slots, in order. */
  function Present<T>(s: seq<Option<T>>): (r: seq<T>)
    ensures |r| <= |s|
    ensures forall i :: 0 <= i < |r| ==> Some(r[i]) in s
    ensures forall i :: 0 <= i < |s| && s[i].Some? ==> s[i].value in r
  {
    if s == [] then []
    else (if s[0].Some? then [s[0].value] else []) + Present(s[1..])
  }

  /** The entities currently registered as dependants. */
  function Dependants<T>(t: Table<T>): seq<T>
  {
    Present(Slots(t, SortedKeys(t.Keys)))
  }

  // ---------------------------------------------------------------------------
  // The listing in canonical form: the live slots' entities, by ascending id.

  /** The keys of `keys` whose slot holds an entity, in the same order. */
  function LiveKeys<T>(t: Table<T>, keys: seq<nat>): (r: seq<nat>)
    requires forall k :: k in keys ==> k in t
    ensures forall k :: k in r <==> k in keys && t[k].Some?
    ensures Increasing(keys) ==> Increasing(r)
  {
    if keys == [] then []
    else
      var rest := LiveKeys(t, keys[1..]);
      if t[keys[0]].Some? then
        (if Increasing(keys) then
           assert forall k :: k in keys[1..] ==> keys[0] < k;
           IncreasingCons(keys[0], rest);
           [keys[0]] + rest
         else [keys[0]] + rest)
      else rest
  }

  /** The entities stored under `keys`, in the same order. */
  function ValuesAt<T>(t: Table<T>, keys: seq<nat>): (r: seq<T>)
    requires forall k :: k in keys ==> k in t && t[k].Some?
    ensures |r| == |keys|
    ensures forall i :: 0 <= i < |keys| ==> t[keys[i]] == Some(r[i])
  {
    if keys == [] then [] else [t[keys[0]].value] + ValuesAt(t, keys[1..])
  }

  lemma {:induction false} PresentSlots<T>(t: Table<T>, keys: seq<nat>)
    requires forall k :: k in keys ==> k in t
    ensures Present(Slots(t, keys)) == ValuesAt(t, LiveKeys(t, keys))
  {
    if keys != [] {
      PresentSlots(t, keys[1..]);
      assert Slots(t, keys)[1..] == Slots(t, keys[1..]);
    }
  }

  /** Two increasing sequences with the same elements are equal. */
  lemma {:induction false} IncreasingUnique(a: seq<nat>, b: seq<nat>)
    requires Increasing(a) && Increasing(b)
    requires forall k :: k in a <==> k in b
    ensures a == b
  {
    if a != [] { assert a[0] in b; }
    if b != [] { assert b[0] in a; }
    if a != [] && b != [] {
      assert a[0] == b[0];
      assert a == [a[0]] + a[1..] && b == [b[0]] + b[1..];
      forall k
        ensures k in a[1..] <==> k in b[1..]
      {
        if k in a[1..] {
          var i :| 0 <= i < |a[1..]| && a[1..][i] == k;
          assert a[i + 1] == k && a[0] < k && k in b;
        }
        if k in b[1..] {
          var j :| 0 <= j < |b[1..]| && b[1..][j] == k;
          assert b[j + 1] == k && b[0] < k && k in a;
        }
      }
      IncreasingUnique(a[1..], b[1..]);
    }
  }

  /** The listing is the live slots' entities in ascending id order. */
  lemma {:induction false} DependantsInIdOrder<T>(t: Table<T>)
    ensures var ids := SortedKeys(LiveIds(t));
            (forall k :: k in ids ==> k in t && t[k].Some?) &&
            Dependants(t) == ValuesAt(t, ids)
  {
    var keys := SortedKeys(t.Keys);
    PresentSlots(t, keys);
    IncreasingUnique(LiveKeys(t, keys), SortedKeys(LiveIds(t)));
  }

  /** Two tables with the same live slots list the same dependants: empty
      slots and absent keys are indistinguishable to the listing. */
  lemma {:induction false} DependantsDeterminedByLiveSlots<T>(t1: Table<T>, t2: Table<T>)
    requires LiveIds(t1) == LiveIds(t2)
    requires forall k :: k in LiveIds(t1) ==> t1[k] == t2[k]
    ensures Dependants(t1) == Dependants(t2)
  {
    DependantsInIdOrder(t1);
    DependantsInIdOrder(t2);
    var ids := SortedKeys(LiveIds(t1));
    var v1, v2 := ValuesAt(t1, ids), ValuesAt(t2, ids);
    assert |v1| == |v2|;
    forall i | 0 <= i < |ids|
      ensures v1[i] == v2[i]
    {
      assert ids[i] in LiveIds(t1);
    }
  }

  /** Every listed entity is held by some slot. */
  lemma {:induction false} DependantsSound<T>(t: Table<T>, e: T)
    requires e in Dependants(t)
    ensures Holds(t, e)
  {
    var keys := SortedKeys(t.Keys);
    var s := Slots(t, keys);
    var r := Present(s);
    var j :| 0 <= j < |r| && r[j] == e;
    assert Some(e) in s;
    var i :| 0 <= i < |s| && s[i] == Some(e);
    assert keys[i] in t && t[keys[i]] == Some(e);
  }

  /** Every entity held by a slot is listed. */
  lemma {:induction false} DependantsComplete<T>(t: Table<T>, k: nat)
    requires k in t && t[k].Some?
    ensures t[k].value in Dependants(t)
  {
    assert k in SortedKeys(t.Keys);
  }

  /** An entity is listed exactly when some slot holds it. */
  lemma {:induction false} DependantsMembership<T>(t: Table<T>, e: T)
    ensures e in Dependants(t) <==> Holds(t, e)
  {
    if e in Dependants(t) {
      DependantsSound(t, e);
    }
    if Holds(t, e) {
      var k :| k in t && t[k] == Some(e);
      DependantsComplete(t, k);
    }
  }

  /** The listing has one entry per live slot. */
  lemma {:induction false} DependantsCount<T>(t: Table<T>)
    ensures |Dependants(t)| == |LiveIds(t)|
  {
    DependantsInIdOrder(t);
  }

  // ---------------------------------------------------------------------------
  // How registering and unregistering change the listing.

  /** After a successful registration the entity is listed and the listing
      grows by exactly one; the entities listed before are still listed. */
  lemma {:induction false} AddListsDependant<T>(t: Table<T>, id: Identity, e: T)
    requires Add(t, id, e).Ok?
    ensures var t' := Add(t, id, e).value;
            && e in Dependants(t')
            && |Dependants(t')| == |Dependants(t)| + 1
            && forall x :: x in Dependants(t) ==> x in Dependants(t')
  {
    var t' := Add(t, id, e).value;
    DependantsMembership(t', e);
    DependantsCount(t);
    DependantsCount(t');
    forall x | x in Dependants(t)
      ensures x in Dependants(t')
    {
      DependantsMembership(t, x);
      DependantsMembership(t', x);
      var k :| k in t && t[k] == Some(x);
      assert k != id.n;
      assert t'[k] == Some(x);
    }
  }

  /** After a successful removal the listing shrinks by exactly one and lists
      precisely what the other slots hold. */
  lemma {:induction false} RemoveUnlists<T>(t: Table<T>, id: Identity)
    requires Remove(t, id).Ok?
    ensures var t' := Remove(t, id).value;
            && |Dependants(t')| == |Dependants(t)| - 1
            && forall x :: x in Dependants(t') <==> Holds(t - {id.n}, x)
  {
    var t' := Remove(t, id).value;
    DependantsCount(t);
    DependantsCount(t');
    forall x
      ensures x in Dependants(t') <==> Holds(t - {id.n}, x)
    {
      DependantsMembership(t', x);
      if Holds(t', x) {
        var k :| k in t' && t'[k] == Some(x);
        assert k != id.n && k in t - {id.n};
      }
      if Holds(t - {id.n}, x) {
        var k :| k in t - {id.n} && (t - {id.n})[k] == Some(x);
        assert t'[k] == Some(x);
      }
    }
  }

  /** Registering and then unregistering the same entity gives back a table
      with the same listing, and registering it again succeeds, because the
      emptied slot does not count as a registration. */
  lemma {:induction false} AddRemoveRestores<T>(t: Table<T>, id: Identity, e: T, e': T)
    requires Add(t, id, e).Ok?
    ensures Remove(Add(t, id, e).value, id).Ok?
    ensures var t' := Remove(Add(t, id, e).value, id).value;
            && LiveIds(t') == LiveIds(t)
            && Dependants(t') == Dependants(t)
            && Add(t', id, e').Ok?
  {
    var t1 := Add(t, id, e).value;
    var t' := Remove(t1, id).value;
    forall k | k in LiveIds(t')
      ensures t'[k] == t[k]
    {
      assert k != id.n;
    }
    DependantsDeterminedByLiveSlots(t', t);
  }
}
