/**
 The index of public keys by ID that a verifier is built around. The keys are
 folded in input order into a map; a key whose ID is already present
 overwrites the earlier one and records a warning, so the last key with a
 given ID wins and building never fails.
 */
module KeyIndex {
  import opened Cryptolib

  /** The IDs carried by the keys of `keys`. */
  function IdsOf(keys: seq<PublicKey>): set<string>
  {
    if |keys| == 0 then {}
    else IdsOf(keys[..|keys| - 1]) + {keys[|keys| - 1].id}
  }

  /** How many keys of `keys` carry `id`. */
  function Occurrences(keys: seq<PublicKey>, id: string): nat
  {
    if |keys| == 0 then 0
    else Occurrences(keys[..|keys| - 1], id) + (if keys[|keys| - 1].id == id then 1 else 0)
  }

  /** The position of the last key carrying `id`, or -1 when no key does. */
  function LastIndexOf(keys: seq<PublicKey>, id: string): (i: int)
    ensures -1 <= i < |keys|
    ensures i < 0 <==> id !in IdsOf(keys)
    ensures 0 <= i ==> keys[i].id == id
    ensures forall j :: i < j < |keys| ==> keys[j].id != id
  {
    if |keys| == 0 then -1
    else if keys[|keys| - 1].id == id then |keys| - 1
    else
      LastIndexOf(keys[..|keys| - 1], id)
  }

  /** The IDs of the keys that repeat the ID of an earlier key, one per such
      key, in input order. */
  function RepeatedIds(keys: seq<PublicKey>): seq<string>
  {
    if |keys| == 0 then []
    else
      var rest := keys[..|keys| - 1];
      var key := keys[|keys| - 1];
      RepeatedIds(rest) + if key.id in IdsOf(rest) then [key.id] else []
  }

  /** The key map together with the IDs warned about while building it, in
      the order the repeated keys were met. */
  datatype Index = Index(keys: map<string, PublicKey>, warnings: seq<string>)

  /** `r` indexes `keys`: every ID of the input is a key of the map and
      nothing else is; each ID maps to the last key that carries it; and
      every key after the first with a given ID adds exactly one warning
      naming that ID. The warnings come in input order (WarningsInInputOrder),
      and warnings and entries together number the keys (EntriesPlusWarnings). */
  ghost predicate IsIndexOf(keys: seq<PublicKey>, r: Index)
  {
    && r.keys.Keys == IdsOf(keys)
    && (forall id | id in r.keys :: r.keys[id] == keys[LastIndexOf(keys, id)])
    && (forall id :: multiset(r.warnings)[id] == if id in r.keys then Occurrences(keys, id) - 1 else 0)
  }

  /** Folds `publicKeySet` into a map keyed by ID, in input order. */
  function IndexPublicKeysByID(publicKeySet: seq<PublicKey>): (r: Index)
    ensures IsIndexOf(publicKeySet, r)
  {
    if |publicKeySet| == 0 then Index(map[], [])
    else
      var rest := publicKeySet[..|publicKeySet| - 1];
      var key := publicKeySet[|publicKeySet| - 1];
      assert publicKeySet == rest + [key];
      var prev := IndexPublicKeysByID(rest);
      var r := Index(prev.keys[key.id := key], prev.warnings + if key.id in prev.keys then [key.id] else []);
      IndexStep(rest, key, prev, r);
      r
  }

  /** Adding one key to an index of `rest` yields an index of `rest + [key]`. */
  lemma IndexStep(rest: seq<PublicKey>, key: PublicKey, prev: Index, r: Index)
    requires IsIndexOf(rest, prev)
    requires r == Index(prev.keys[key.id := key], prev.warnings + if key.id in prev.keys then [key.id] else [])
    ensures IsIndexOf(rest + [key], r)
  {
    var keys := rest + [key];
    assert keys[..|keys| - 1] == rest;
    LastKeyStep(rest, key, prev.keys);
    WarningsStep(rest, key, prev.keys, prev.warnings);
  }

  /** The warnings are the IDs of the keys that repeat an earlier key's ID,
      one per such key, in input order. */
  lemma {:induction false} WarningsInInputOrder(publicKeySet: seq<PublicKey>)
    ensures IndexPublicKeysByID(publicKeySet).warnings == RepeatedIds(publicKeySet)
  {
    if |publicKeySet| > 0 {
      var rest := publicKeySet[..|publicKeySet| - 1];
      var key := publicKeySet[|publicKeySet| - 1];
      var prev := IndexPublicKeysByID(rest);
      assert IndexPublicKeysByID(publicKeySet).warnings
             == prev.warnings + if key.id in prev.keys then [key.id] else [];
      assert prev.keys.Keys == IdsOf(rest);
      WarningsInInputOrder(rest);
    }
  }

  /** Each input key adds either a map entry or a warning. */
  lemma {:induction false} EntriesPlusWarnings(publicKeySet: seq<PublicKey>)
    ensures |IndexPublicKeysByID(publicKeySet).keys| + |IndexPublicKeysByID(publicKeySet).warnings| == |publicKeySet|
  {
    if |publicKeySet| > 0 {
      var rest := publicKeySet[..|publicKeySet| - 1];
      var key := publicKeySet[|publicKeySet| - 1];
      EntriesPlusWarnings(rest);
      var prev := IndexPublicKeysByID(rest);
      if key.id in prev.keys {
        assert |prev.keys[key.id := key]| == |prev.keys|;
      } else {
        assert |prev.keys[key.id := key]| == |prev.keys| + 1;
      }
    }
  }

  /** Adding one key keeps every ID mapped to its last occurrence. */
  lemma LastKeyStep(rest: seq<PublicKey>, key: PublicKey, m: map<string, PublicKey>)
    requires m.Keys == IdsOf(rest)
    requires forall id | id in m :: m[id] == rest[LastIndexOf(rest, id)]
    ensures forall id | id in m[key.id := key] :: m[key.id := key][id] == (rest + [key])[LastIndexOf(rest + [key], id)]
  {
    var keys := rest + [key];
    assert keys[..|keys| - 1] == rest;
    forall id | id in m[key.id := key]
      ensures m[key.id := key][id] == keys[LastIndexOf(keys, id)]
    {
      if id != key.id {
        assert LastIndexOf(keys, id) == LastIndexOf(rest, id);
      }
    }
  }

  /** Adding one key keeps every ID's warning count one below its number of
      occurrences. */
  lemma WarningsStep(rest: seq<PublicKey>, key: PublicKey, m: map<string, PublicKey>, warnings: seq<string>)
    requires m.Keys == IdsOf(rest)
    requires forall id :: multiset(warnings)[id] == if id in m then Occurrences(rest, id) - 1 else 0
    ensures var warnings' := warnings + if key.id in m then [key.id] else [];
            forall id :: multiset(warnings')[id] == if id in m[key.id := key] then Occurrences(rest + [key], id) - 1 else 0
  {
    var keys := rest + [key];
    var extra := if key.id in m then [key.id] else [];
    assert keys[..|keys| - 1] == rest;
    OccursIffPresent(rest, key.id);
    forall id
      ensures multiset(warnings + extra)[id] == if id in m[key.id := key] then Occurrences(keys, id) - 1 else 0
    {
      assert multiset(warnings + extra)[id] == multiset(warnings)[id] + multiset(extra)[id];
      if id == key.id {
        assert Occurrences(keys, id) == Occurrences(rest, id) + 1;
      } else {
        assert multiset(extra)[id] == 0;
        assert Occurrences(keys, id) == Occurrences(rest, id);
        if id in m {
          OccursIffPresent(rest, id);
        }
      }
    }
  }

  /** No two positions of `keys` hold keys with the same ID. */
  predicate DistinctIds(keys: seq<PublicKey>)
  {
    forall i, j :: 0 <= i < j < |keys| ==> keys[i].id != keys[j].id
  }

  /** An ID occurs at least twice exactly when two distinct positions carry it. */
  lemma {:induction false} RepeatedIffTwoPositions(keys: seq<PublicKey>, id: string)
    ensures Occurrences(keys, id) >= 2 <==>
            exists i, j :: 0 <= i < j < |keys| && keys[i].id == id && keys[j].id == id
  {
    if |keys| > 0 {
      var rest := keys[..|keys| - 1];
      RepeatedIffTwoPositions(rest, id);
      OccursIffPresent(rest, id);
      if keys[|keys| - 1].id == id && Occurrences(rest, id) == 1 {
        var k := LastIndexOf(rest, id);
        assert keys[k].id == id && keys[|keys| - 1].id == id;
      }
      if exists i, j :: 0 <= i < j < |keys| && keys[i].id == id && keys[j].id == id {
        var i, j :| 0 <= i < j < |keys| && keys[i].id == id && keys[j].id == id;
        if j < |keys| - 1 {
          assert rest[i].id == id && rest[j].id == id;
        } else {
          IdAtPositionIsPresent(rest, i);
        }
      }
    }
  }

  /** The ID of the key at any position is among the IDs of the sequence. */
  lemma {:induction false} IdAtPositionIsPresent(keys: seq<PublicKey>, i: int)
    requires 0 <= i < |keys|
    ensures keys[i].id in IdsOf(keys)
  {
    if i < |keys| - 1 {
      IdAtPositionIsPresent(keys[..|keys| - 1], i);
    }
  }

  /** An ID occurs at least once exactly when some key carries it. */
  lemma {:induction false} OccursIffPresent(keys: seq<PublicKey>, id: string)
    ensures Occurrences(keys, id) >= 1 <==> id in IdsOf(keys)
  {
    if |keys| > 0 {
      var rest := keys[..|keys| - 1];
      OccursIffPresent(rest, id);
      assert keys == rest + [keys[|keys| - 1]];
      assert IdsOf(keys) == IdsOf(rest) + {keys[|keys| - 1].id};
    }
  }

  /** A warning names `id` exactly when two keys of the input carry `id`. */
  lemma WarnedIffRepeated(publicKeySet: seq<PublicKey>, id: string)
    ensures id in IndexPublicKeysByID(publicKeySet).warnings <==>
            exists i, j :: 0 <= i < j < |publicKeySet| && publicKeySet[i].id == id && publicKeySet[j].id == id
  {
    var r := IndexPublicKeysByID(publicKeySet);
    RepeatedIffTwoPositions(publicKeySet, id);
    OccursIffPresent(publicKeySet, id);
    assert id in r.warnings <==> multiset(r.warnings)[id] > 0;
  }

  /** Building the index warns about nothing exactly when the IDs are distinct
      (and then, by EntriesPlusWarnings, the index holds one entry per key). */
  lemma NoWarningsIffDistinct(publicKeySet: seq<PublicKey>)
    ensures IndexPublicKeysByID(publicKeySet).warnings == [] <==> DistinctIds(publicKeySet)
  {
    var r := IndexPublicKeysByID(publicKeySet);
    if r.warnings != [] {
      assert !DistinctIds(publicKeySet) by {
        WarnedIffRepeated(publicKeySet, r.warnings[0]);
      }
    }
    if !DistinctIds(publicKeySet) {
      var i, j :| 0 <= i < j < |publicKeySet| && publicKeySet[i].id == publicKeySet[j].id;
      assert r.warnings != [] by {
        WarnedIffRepeated(publicKeySet, publicKeySet[i].id);
      }
    }
  }

  /** Looking up any ID of the input yields the last key carrying it: a key
      with that ID that no later key of the input replaces. */
  lemma LookupYieldsLastKey(publicKeySet: seq<PublicKey>, id: string)
    requires id in IdsOf(publicKeySet)
    ensures id in IndexPublicKeysByID(publicKeySet).keys
    ensures var k := IndexPublicKeysByID(publicKeySet).keys[id];
            k.id == id && k in publicKeySet &&
            exists i :: 0 <= i < |publicKeySet| && publicKeySet[i] == k &&
                        forall j :: i < j < |publicKeySet| ==> publicKeySet[j].id != id
  {
    var i := LastIndexOf(publicKeySet, id);
    assert publicKeySet[i] == IndexPublicKeysByID(publicKeySet).keys[id];
  }
}
