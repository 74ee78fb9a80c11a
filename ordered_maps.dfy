/** JavaScript objects used as dictionaries keep their keys in insertion
    order, and the source iterates over them (`for ... in`, `Object.keys`,
    `Object.entries`). An `OMap` is such a dictionary: the keys in insertion
    order beside the key-value map. */
module OrderedMaps {
  import opened Seqs

  datatype OMap<V> = OMap(keys: seq<string>, entries: map<string, V>)
  {
    /** The keys listed are exactly the keys mapped, each listed once. */
    ghost predicate Valid()
    {
      && Distinct(keys)
      && (forall k :: k in entries <==> k in keys)
    }

    /** `obj[k] = v`: a new key goes to the end, an existing key keeps its place. */
    function Put(k: string, v: V): (r: OMap<V>)
      ensures Valid() ==> r.Valid()
      ensures r.entries == entries[k := v]
      ensures r.keys == if k in entries then keys else keys + [k]
    {
      OMap(if k in entries then keys else keys + [k], entries[k := v])
    }

    /** `obj[k] || default`. */
    function GetOr(k: string, default: V): V
    {
      if k in entries then entries[k] else default
    }
  }

  /** A second assignment to the same key overrides the first. */
  lemma PutTwice<V>(m: OMap<V>, k: string, a: V, b: V)
    ensures m.Put(k, a).Put(k, b) == m.Put(k, b)
  {
  }

  function Empty<V>(): (r: OMap<V>)
    ensures r.Valid() && r.keys == []
  {
    OMap([], map[])
  }

  /** A list-valued dictionary flattened into (key, item) pairs: keys in
      order, and each key's items in order. */
  function Pairs(keys: seq<string>, lists: string -> seq<string>): seq<(string, string)>
  {
    if keys == [] then []
    else Pairs(keys[..|keys| - 1], lists) + PairsOf(keys[|keys| - 1], lists(keys[|keys| - 1]))
  }

  function PairsOf(k: string, items: seq<string>): (r: seq<(string, string)>)
    ensures |r| == |items|
    ensures forall i :: 0 <= i < |items| ==> r[i] == (k, items[i])
  {
    seq(|items|, i requires 0 <= i < |items| => (k, items[i]))
  }

  /** The items of a pair list, in order. */
  function Items(pairs: seq<(string, string)>): (r: seq<string>)
    ensures |r| == |pairs|
    ensures forall i :: 0 <= i < |pairs| ==> r[i] == pairs[i].1
  {
    seq(|pairs|, i requires 0 <= i < |pairs| => pairs[i].1)
  }

  /** The keys paired with `item`, in pair order, once per pair. */
  function Owners(pairs: seq<(string, string)>, item: string): seq<string>
  {
    if pairs == [] then []
    else
      var p := pairs[|pairs| - 1];
      Owners(pairs[..|pairs| - 1], item) + (if p.1 == item then [p.0] else [])
  }

  lemma {:induction false} OwnersAppend(a: seq<(string, string)>, b: seq<(string, string)>, item: string)
    ensures Owners(a + b, item) == Owners(a, item) + Owners(b, item)
    decreases |b|
  {
    if b == [] {
      assert a + b == a;
    } else {
      assert (a + b)[..|a + b| - 1] == a + b[..|b| - 1];
      OwnersAppend(a, b[..|b| - 1], item);
    }
  }

  lemma {:induction false} OwnersOfOneKey(k: string, items: seq<string>, item: string)
    ensures Owners(PairsOf(k, items), item) == Repeat(k, Count(items, item))
  {
    if items != [] {
      var n := |items| - 1;
      assert PairsOf(k, items)[..n] == PairsOf(k, items[..n]);
      OwnersOfOneKey(k, items[..n], item);
    }
  }

  /** Inversion symmetry with multiplicity: in the inverted dictionary,
      key `k` is listed under `item` exactly as often as `item` is listed
      under `k` in the original. */
  lemma {:induction false} OwnersCount(keys: seq<string>, lists: string -> seq<string>, item: string, k: string)
    requires Distinct(keys)
    ensures Count(Owners(Pairs(keys, lists), item), k) == if k in keys then Count(lists(k), item) else 0
  {
    if keys != [] {
      var init, last := keys[..|keys| - 1], keys[|keys| - 1];
      assert keys == init + [last];
      OwnersCount(init, lists, item, k);
      OwnersAppend(Pairs(init, lists), PairsOf(last, lists(last)), item);
      CountAppend(Owners(Pairs(init, lists), item), Owners(PairsOf(last, lists(last)), item), k);
      OwnersOfOneKey(last, lists(last), item);
      CountRepeat(last, Count(lists(last), item), k);
    }
  }

  /** An item has owners exactly when it is listed under some key. */
  lemma {:induction false} OwnersNonEmpty(pairs: seq<(string, string)>, item: string)
    ensures Owners(pairs, item) != [] <==> item in Items(pairs)
  {
    if pairs != [] {
      var init := pairs[..|pairs| - 1];
      OwnersNonEmpty(init, item);
      assert Items(pairs) == Items(init) + [pairs[|pairs| - 1].1];
    }
  }

  lemma PairsSnoc(keys: seq<string>, i: nat, lists: string -> seq<string>)
    requires i < |keys|
    ensures Pairs(keys[..i + 1], lists) == Pairs(keys[..i], lists) + PairsOf(keys[i], lists(keys[i]))
  {
    assert keys[..i + 1][..i] == keys[..i];
  }

  /** `inv` is the inversion of the pair list `pairs`. */
  ghost predicate Inverts(inv: OMap<seq<string>>, pairs: seq<(string, string)>)
  {
    && inv.Valid()
    && inv.keys == Dedup(Items(pairs))
    && forall item :: inv.GetOr(item, []) == Owners(pairs, item)
  }

  lemma InvertsEntries(inv: OMap<seq<string>>, pairs: seq<(string, string)>)
    requires Inverts(inv, pairs)
    ensures forall item :: item in inv.entries ==> inv.entries[item] == Owners(pairs, item)
  {
    forall item | item in inv.entries
      ensures inv.entries[item] == Owners(pairs, item)
    {
      assert inv.GetOr(item, []) == inv.entries[item];
    }
  }

  /** `if (!inv[item]) inv[item] = []; inv[item].push(owner);` */
  function PushOwner(inv: OMap<seq<string>>, item: string, owner: string): OMap<seq<string>>
  {
    inv.Put(item, inv.GetOr(item, []) + [owner])
  }

  lemma PushOwnerInverts(inv: OMap<seq<string>>, pairs: seq<(string, string)>, owner: string, item: string)
    requires Inverts(inv, pairs)
    ensures Inverts(PushOwner(inv, item, owner), pairs + [(owner, item)])
  {
    PushOwnerKeys(inv, pairs, owner, item);
    PushOwnerValues(inv, pairs, owner, item);
  }

  lemma PushOwnerKeys(inv: OMap<seq<string>>, pairs: seq<(string, string)>, owner: string, item: string)
    requires inv.Valid() && inv.keys == Dedup(Items(pairs))
    ensures PushOwner(inv, item, owner).keys == Dedup(Items(pairs + [(owner, item)]))
  {
    var items := Items(pairs);
    assert Items(pairs + [(owner, item)]) == items + [item];
    assert (items + [item])[..|items|] == items;
    DedupSpec(items);
  }

  lemma PushOwnerValues(inv: OMap<seq<string>>, pairs: seq<(string, string)>, owner: string, item: string)
    requires forall x :: inv.GetOr(x, []) == Owners(pairs, x)
    ensures forall x :: PushOwner(inv, item, owner).GetOr(x, []) == Owners(pairs + [(owner, item)], x)
  {
    var pairs' := pairs + [(owner, item)];
    assert pairs'[..|pairs'| - 1] == pairs;
    forall x
      ensures PushOwner(inv, item, owner).GetOr(x, []) == Owners(pairs', x)
    {
      assert Owners(pairs', x) == Owners(pairs, x) + (if item == x then [owner] else []);
    }
  }

  /** The inner loop: `k` is pushed under each of its items in turn. */
  method PushOwners(inv0: OMap<seq<string>>, ghost done: seq<(string, string)>, k: string, items: seq<string>)
    returns (inv: OMap<seq<string>>)
    requires Inverts(inv0, done)
    ensures Inverts(inv, done + PairsOf(k, items))
  {
    inv := inv0;
    var j := 0;
    assert done + PairsOf(k, items[..0]) == done;
    while j < |items|
      invariant 0 <= j <= |items|
      invariant Inverts(inv, done + PairsOf(k, items[..j]))
    {
      PushOwnerInverts(inv, done + PairsOf(k, items[..j]), k, items[j]);
      assert done + PairsOf(k, items[..j + 1]) == done + PairsOf(k, items[..j]) + [(k, items[j])];
      inv := PushOwner(inv, items[j], k);
      j := j + 1;
    }
    assert items[..j] == items;
  }

  /** The nested loop
        for (const k of keys) for (const item of lists(k)) {
          if (!inv[item]) inv[item] = []; inv[item].push(k); }
      which inverts a list-valued dictionary. Keys of the result appear in
      order of first mention; each lists its owners in key order. */
  method Invert(keys: seq<string>, lists: string -> seq<string>) returns (inv: OMap<seq<string>>)
    ensures inv.Valid()
    ensures inv.keys == Dedup(Items(Pairs(keys, lists)))
    ensures forall item :: item in inv.entries ==> inv.entries[item] == Owners(Pairs(keys, lists), item)
  {
    inv := Empty();
    var i := 0;
    while i < |keys|
      invariant 0 <= i <= |keys|
      invariant Inverts(inv, Pairs(keys[..i], lists))
    {
      inv := PushOwners(inv, Pairs(keys[..i], lists), keys[i], lists(keys[i]));
      PairsSnoc(keys, i, lists);
      i := i + 1;
    }
    assert keys[..i] == keys;
    InvertsEntries(inv, Pairs(keys, lists));
  }
}
