/**
 The string dictionary: three parallel slot arrays with cached hashes, holes left by deletions, and doubling.
 Every operation is stated by the finite map the slots stand for.
 */
module Dictionary {
  import opened Bytes
  import opened Wrappers

  const DICTMINSZ: nat := 128

  type Text = seq<byte>

  type Hash = bv32

  function Byte(c: byte): Hash {
    c as bv32
  }

  /** One turn of the hashing loop. */
  function Mix(hash: Hash, c: byte): Hash {
    var h := hash + Byte(c);
    var g := h + (h << 10);
    g ^ (g >> 6)
  }

  function MixAll(key: seq<byte>): Hash {
    if key == [] then 0 else Mix(MixAll(key[..|key| - 1]), key[|key| - 1])
  }

  function Finish(hash: Hash): Hash {
    var h := hash + (hash << 3);
    var g := h ^ (h >> 11);
    g + (g << 15)
  }

  function HashOf(key: seq<byte>): Hash {
    Finish(MixAll(key))
  }

  /** The hash of `"a"`, as published for this function. */
  lemma HashOfLetter()
    ensures HashOf([0x61]) == 0xCA2E9442
  {
  }

  /** `dictionary_hash` of a key that is not NULL. */
  method DictionaryHash(key: seq<byte>) returns (hash: Hash)
    ensures hash == HashOf(key)
  {
    hide Mix;
    hide Finish;
    hash := 0;
    assert key[..0] == [];
    var i := 0;
    while i < |key|
      invariant 0 <= i <= |key| && hash == MixAll(key[..i])
    {
      assert key[..i + 1][..i] == key[..i];
      hash := Mix(hash, key[i]);
      i := i + 1;
    }
    assert key[..|key|] == key;
    hash := Finish(hash);
  }

  // ---------------------------------------------------------------- slots

  /** What the occupied slots stand for; a value may be NULL, which is `None`. */
  ghost function Entries(keys: seq<Option<Text>>, vals: seq<Option<Text>>): map<Text, Option<Text>>
    requires |keys| == |vals|
  {
    if keys == [] then map[]
    else
      var before := Entries(keys[..|keys| - 1], vals[..|vals| - 1]);
      if keys[|keys| - 1].None? then before else before[keys[|keys| - 1].value := vals[|vals| - 1]]
  }

  function Occupied(keys: seq<Option<Text>>): nat {
    if keys == [] then 0
    else Occupied(keys[..|keys| - 1]) + if keys[|keys| - 1].Some? then 1 else 0
  }

  ghost predicate DistinctKeys(keys: seq<Option<Text>>) {
    forall i, j :: 0 <= i < j < |keys| && keys[i].Some? ==> keys[i] != keys[j]
  }

  ghost predicate HashesMatch(keys: seq<Option<Text>>, hashes: seq<Hash>) {
    |hashes| == |keys| && forall i :: 0 <= i < |keys| && keys[i].Some? ==> hashes[i] == HashOf(keys[i].value)
  }

  /** A key is in the map exactly when a slot holds it, and then the slot holds its value. */
  lemma {:induction false} EntriesAt(keys: seq<Option<Text>>, vals: seq<Option<Text>>, i: nat)
    requires |keys| == |vals| && DistinctKeys(keys) && i < |keys| && keys[i].Some?
    ensures keys[i].value in Entries(keys, vals) && Entries(keys, vals)[keys[i].value] == vals[i]
  {
    if i < |keys| - 1 {
      EntriesAt(keys[..|keys| - 1], vals[..|vals| - 1], i);
      assert keys[i] != keys[|keys| - 1];
    }
  }

  lemma {:induction false} EntriesAbsent(keys: seq<Option<Text>>, vals: seq<Option<Text>>, key: Text)
    requires |keys| == |vals|
    ensures key in Entries(keys, vals) <==> Some(key) in keys
  {
    if keys != [] {
      var front := keys[..|keys| - 1];
      EntriesAbsent(front, vals[..|vals| - 1], key);
      assert keys == front + [keys[|keys| - 1]];
    }
  }

  /** Filling an empty slot adds an entry. */
  lemma {:induction false} EntriesFilled(keys: seq<Option<Text>>, vals: seq<Option<Text>>, i: nat, key: Text,
                                         val: Option<Text>)
    requires |keys| == |vals| && i < |keys| && keys[i].None? && Some(key) !in keys
    ensures Entries(keys[i := Some(key)], vals[i := val]) == Entries(keys, vals)[key := val]
    ensures Occupied(keys[i := Some(key)]) == Occupied(keys) + 1
  {
    var n := |keys| - 1;
    var keys', vals' := keys[i := Some(key)], vals[i := val];
    if i < n {
      EntriesFilled(keys[..n], vals[..n], i, key, val);
      assert keys'[..n] == keys[..n][i := Some(key)] && vals'[..n] == vals[..n][i := val];
      assert keys[n] in keys;
    } else {
      assert keys'[..n] == keys[..n] && vals'[..n] == vals[..n];
    }
  }

  /** Changing the value in an occupied slot changes that entry. */
  lemma {:induction false} EntriesChanged(keys: seq<Option<Text>>, vals: seq<Option<Text>>, i: nat, val: Option<Text>)
    requires |keys| == |vals| && DistinctKeys(keys) && i < |keys| && keys[i].Some?
    ensures Entries(keys, vals[i := val]) == Entries(keys, vals)[keys[i].value := val]
  {
    var n := |keys| - 1;
    if i < n {
      EntriesChanged(keys[..n], vals[..n], i, val);
      assert vals[i := val][..n] == vals[..n][i := val];
      assert keys[i] != keys[n];
    } else {
      assert vals[i := val][..n] == vals[..n];
    }
  }

  /** Emptying an occupied slot removes its entry. */
  lemma {:induction false} EntriesEmptied(keys: seq<Option<Text>>, vals: seq<Option<Text>>, i: nat)
    requires |keys| == |vals| && DistinctKeys(keys) && i < |keys| && keys[i].Some?
    ensures Entries(keys[i := None], vals[i := None]) == Entries(keys, vals) - {keys[i].value}
    ensures Occupied(keys[i := None]) == Occupied(keys) - 1
  {
    var n := |keys| - 1;
    var keys', vals' := keys[i := None], vals[i := None];
    if i < n {
      EntriesEmptied(keys[..n], vals[..n], i);
      assert keys'[..n] == keys[..n][i := None] && vals'[..n] == vals[..n][i := None];
      assert keys[i] != keys[n];
    } else {
      assert keys'[..n] == keys[..n] && vals'[..n] == vals[..n];
      EntriesAbsent(keys[..n], vals[..n], keys[n].value);
    }
  }

  function Holes(n: nat): (r: seq<Option<Text>>)
    ensures |r| == n && forall i :: 0 <= i < n ==> r[i].None?
  {
    seq(n, _ => None)
  }

  /** Empty slots at the end add nothing. */
  lemma {:induction false} EntriesGrown(keys: seq<Option<Text>>, vals: seq<Option<Text>>, more: nat)
    requires |keys| == |vals|
    ensures Entries(keys + Holes(more), vals + Holes(more)) == Entries(keys, vals)
    ensures Occupied(keys + Holes(more)) == Occupied(keys)
  {
    var keys', vals' := keys + Holes(more), vals + Holes(more);
    if more == 0 {
      assert keys' == keys && vals' == vals;
    } else {
      EntriesGrown(keys, vals, more - 1);
      assert keys'[..|keys'| - 1] == keys + Holes(more - 1);
      assert vals'[..|vals'| - 1] == vals + Holes(more - 1);
    }
  }

  lemma KeysGrown(keys: seq<Option<Text>>, hashes: seq<Hash>, hashes': seq<Hash>, more: nat)
    requires DistinctKeys(keys) && HashesMatch(keys, hashes)
    requires |hashes'| == |keys| + more && hashes'[..|keys|] == hashes
    ensures DistinctKeys(keys + Holes(more)) && HashesMatch(keys + Holes(more), hashes')
  {
  }

  lemma {:induction false} OccupiedAll(keys: seq<Option<Text>>)
    ensures Occupied(keys) <= |keys|
    ensures Occupied(keys) == |keys| <==> forall i :: 0 <= i < |keys| ==> keys[i].Some?
  {
    if keys != [] {
      OccupiedAll(keys[..|keys| - 1]);
    }
  }

  // ---------------------------------------------------------------- the dictionary

  class Dict {
    var n: nat
    var key: array<Option<Text>>
    var val: array<Option<Text>>
    var hash: array<Hash>

    ghost predicate Valid()
      reads this, key, val, hash
    {
      && 0 < key.Length == val.Length == hash.Length
      && key != val && hash != key as object && hash != val as object
      && DistinctKeys(key[..]) && HashesMatch(key[..], hash[..])
      && n == Occupied(key[..])
    }

    /** The map the dictionary stands for. */
    ghost function Map(): map<Text, Option<Text>>
      reads this, key, val
      requires key.Length == val.Length
    {
      Entries(key[..], val[..])
    }

    constructor (size: nat)
      ensures Valid() && Map() == map[] && key.Length == if size < DICTMINSZ then DICTMINSZ else size
      ensures fresh(key) && fresh(val) && fresh(hash)
    {
      var s := if size < DICTMINSZ then DICTMINSZ else size;
      n := 0;
      key := new Option<Text>[s](_ => None);
      val := new Option<Text>[s](_ => None);
      hash := new Hash[s](_ => 0);
      new;
      EntriesGrown([], [], s);
      assert key[..] == [] + Holes(s) && val[..] == [] + Holes(s);
    }

    /** The scan shared by get, set and unset: the slot that holds the key, or none. */
    method FindSlot(k: Text, h: Hash) returns (i: nat)
      requires Valid() && h == HashOf(k)
      ensures i <= key.Length
      ensures i < key.Length ==> key[i] == Some(k)
      ensures i == key.Length ==> Some(k) !in key[..]
    {
      i := 0;
      while i < key.Length
        invariant 0 <= i <= key.Length
        invariant forall j :: 0 <= j < i ==> key[j] != Some(k)
      {
        if key[i].Some? && h == hash[i] && k == key[i].value {
          return;
        }
        assert HashesMatch(key[..], hash[..]) && key[..][i] == key[i] && hash[..][i] == hash[i];
        i := i + 1;
      }
    }

    /** `dictionary_get`; a key that is set to NULL gives NULL, not the default. */
    method Get(k: Text, def: Option<Text>) returns (v: Option<Text>)
      requires Valid()
      ensures v == if k in Map() then Map()[k] else def
    {
      var h := DictionaryHash(k);
      var i := FindSlot(k, h);
      EntriesAbsent(key[..], val[..], k);
      if i < key.Length {
        EntriesAt(key[..], val[..], i);
        return val[i];
      }
      v := def;
    }

    method Grow()
      requires Valid()
      modifies this
      ensures Valid() && Map() == old(Map()) && n == old(n) && key.Length == 2 * old(key.Length)
      ensures fresh(key) && fresh(val) && fresh(hash)
      ensures key[..] == old(key[..]) + Holes(old(key.Length))
    {
      hide Entries;
      hide Occupied;
      ghost var keys, vals, hashes := key[..], val[..], hash[..];
      var size := key.Length;
      var newVal := new Option<Text>[size * 2](_ => None);
      var newKey := new Option<Text>[size * 2](_ => None);
      var newHash := new Hash[size * 2](_ => 0);
      forall i | 0 <= i < size {
        newVal[i] := val[i];
      }
      forall i | 0 <= i < size {
        newKey[i] := key[i];
      }
      forall i | 0 <= i < size {
        newHash[i] := hash[i];
      }
      val, key, hash := newVal, newKey, newHash;
      assert key[..] == keys + Holes(size) && val[..] == vals + Holes(size) && hash[..][..size] == hashes;
      EntriesGrown(keys, vals, size);
      KeysGrown(keys, hashes, hash[..], size);
    }

    /** The first empty slot from `n` on, wrapping at the end. */
    method FreeSlot() returns (i: nat)
      requires Valid() && n < key.Length
      ensures i < key.Length && key[i].None?
    {
      OccupiedAll(key[..]);
      ghost var hole :| 0 <= hole < key.Length && key[..][hole].None?;
      ghost var distance := if n <= hole then hole - n else hole + key.Length - n;
      ghost var passed := 0;
      i := n;
      while key[i].Some?
        invariant 0 <= passed <= distance
        invariant i == if n + passed < key.Length then n + passed else n + passed - key.Length
        decreases distance - passed
      {
        i := i + 1;
        if i == key.Length {
          i := 0;
        }
        passed := passed + 1;
      }
    }

    /** The insertion into an empty slot that ends `dictionary_set`. */
    method Fill(i: nat, k: Text, v: Option<Text>, h: Hash)
      requires Valid() && i < key.Length && key[i].None? && Some(k) !in key[..] && h == HashOf(k)
      modifies this`n, key, val, hash
      ensures Valid() && Map() == old(Map())[k := v]
    {
      hide Entries;
      hide Occupied;
      hide HashOf;
      ghost var keys, vals, hashes := key[..], val[..], hash[..];
      EntriesFilled(keys, vals, i, k, v);
      key[i] := Some(k);
      val[i] := v;
      hash[i] := h;
      n := n + 1;
      assert key[..] == keys[i := Some(k)] && val[..] == vals[i := v] && hash[..] == hashes[i := h];
    }

    /** `dictionary_set`. */
    method Set(k: Text, v: Option<Text>)
      requires Valid()
      modifies this, key, val, hash
      ensures Valid() && Map() == old(Map())[k := v]
      ensures key.Length ==
              if k !in old(Map()) && old(n) == old(key.Length) then 2 * old(key.Length) else old(key.Length)
      ensures (key == old(key) || fresh(key)) && (val == old(val) || fresh(val)) && (hash == old(hash) || fresh(hash))
    {
      hide Entries;
      hide Occupied;
      hide HashOf;
      var h := DictionaryHash(k);
      EntriesAbsent(key[..], val[..], k);
      if n > 0 {
        var i := FindSlot(k, h);
        if i < key.Length {
          EntriesChanged(key[..], val[..], i, v);
          ghost var vals := val[..];
          val[i] := v;
          assert val[..] == vals[i := v];
          return;
        }
      } else {
        NoneOccupied(key[..], k);
      }
      if n == key.Length {
        Grow();
      } else {
        OccupiedAll(key[..]);
      }
      var free := FreeSlot();
      Fill(free, k, v, h);
    }

    /** `dictionary_unset`; nothing happens when the key is not there. */
    method Unset(k: Text)
      requires Valid()
      modifies this`n, key, val, hash
      ensures Valid() && Map() == old(Map()) - {k}
    {
      hide Entries;
      hide Occupied;
      hide HashOf;
      var h := DictionaryHash(k);
      var i := FindSlot(k, h);
      ghost var keys, vals, hashes := key[..], val[..], hash[..];
      EntriesAbsent(keys, vals, k);
      if i >= key.Length {
        return;
      }
      EntriesEmptied(keys, vals, i);
      OccupiedAll(keys);
      key[i] := None;
      val[i] := None;
      hash[i] := 0;
      n := n - 1;
      assert key[..] == keys[i := None] && val[..] == vals[i := None] && hash[..] == hashes[i := 0];
    }
  }

  lemma {:induction false} NoneOccupied(keys: seq<Option<Text>>, key: Text)
    requires Occupied(keys) == 0
    ensures Some(key) !in keys
  {
    if keys != [] {
      NoneOccupied(keys[..|keys| - 1], key);
      assert keys == keys[..|keys| - 1] + [keys[|keys| - 1]];
    }
  }

  // ---------------------------------------------------------------- sequences of operations

  datatype Operation = SetTo(k: Text, v: Option<Text>) | Clear(k: Text)

  function Outcome(m: map<Text, Option<Text>>, ops: seq<Operation>): map<Text, Option<Text>> {
    if ops == [] then m
    else
      var before := Outcome(m, ops[..|ops| - 1]);
      match ops[|ops| - 1]
      case SetTo(k, v) => before[k := v]
      case Clear(k) => before - {k}
  }

  /** After any sequence of operations on a new dictionary, lookups are lookups in the map they describe. */
  method Perform(size: nat, ops: seq<Operation>, query: Text, def: Option<Text>) returns (v: Option<Text>)
    ensures var m := Outcome(map[], ops); v == if query in m then m[query] else def
  {
    hide Entries;
    var d := new Dict(size);
    assert ops[..0] == [];
    for i := 0 to |ops|
      invariant d.Valid() && d.key.Length == d.val.Length && d.Map() == Outcome(map[], ops[..i])
      invariant fresh(d) && fresh(d.key) && fresh(d.val) && fresh(d.hash)
    {
      assert ops[..i + 1][..i] == ops[..i];
      match ops[i]
      case SetTo(k, v) => d.Set(k, v);
      case Clear(k) => d.Unset(k);
    }
    assert ops[..|ops|] == ops;
    v := d.Get(query, def);
  }
}
