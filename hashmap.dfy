/**
 * The chained hash map of hashmap.c: string keys, one value per key, a
 * fixed-size array of chains, a replaceable hash function and a pluggable
 * collision resolver. A chain (the linked `Bucket` nodes hanging from one
 * array slot) is modelled as the sequence of its entries in link order.
 */
module HashMaps {
  import opened Wrappers
  import Hash

  datatype Entry<V> = Entry(key: string, data: V)

  /** `(int) c` for a signed 8-bit C `char`. */
  function SignedChar(c: char): int
  {
    var b := (c as int) % 256;
    if b < 128 then b else b - 256
  }

  /** The sum of the key's characters, as the C loop accumulates it. */
  function CharSum(key: string): int
  {
    if key == [] then 0 else CharSum(key[..|key| - 1]) + SignedChar(key[|key| - 1])
  }

  /** The default hash function `hash`: the character sum converted to `unsigned int`. */
  function AdditiveHash(key: string): (h: nat)
    ensures h < Hash.U32
  {
    CharSum(key) % Hash.U32
  }

  /** `hash` of hashmap.c, computed by its loop. */
  method AdditiveHashLoop(key: string) returns (h: nat)
    ensures h == AdditiveHash(key)
  {
    var sum := 0;
    for i := 0 to |key|
      invariant sum == CharSum(key[..i])
    {
      assert key[..i + 1][..i] == key[..i];
      sum := sum + SignedChar(key[i]);
    }
    assert key[..|key|] == key;
    h := sum % Hash.U32;
  }

  /** The entries of all chains, chain 0 first, each chain in link order. */
  function Flatten<V>(chains: seq<seq<Entry<V>>>): seq<Entry<V>>
  {
    if chains == [] then [] else Flatten(chains[..|chains| - 1]) + chains[|chains| - 1]
  }

  /** The map a sequence of entries with distinct keys describes. */
  function ToMap<V>(s: seq<Entry<V>>): map<string, V>
  {
    if s == [] then map[] else ToMap(s[..|s| - 1])[s[|s| - 1].key := s[|s| - 1].data]
  }

  ghost predicate DistinctKeys<V>(s: seq<Entry<V>>)
  {
    forall a, b :: 0 <= a < b < |s| ==> s[a].key != s[b].key
  }

  /**
   * The representation invariant: every entry sits in chain h(key) % |chains|,
   * keys are unique within a chain (hence across the map), and the chains hold
   * exactly the key/value pairs of m.
   */
  ghost predicate Layout<V>(chains: seq<seq<Entry<V>>>, h: string --> nat, m: map<string, V>)
  {
    |chains| > 0 && Placed(chains, h, m) && ChainsDistinct(chains) && Covered(chains, h, m)
  }

  /** Every entry sits in the chain its key hashes to and carries the map's value. */
  ghost predicate Placed<V>(chains: seq<seq<Entry<V>>>, h: string --> nat, m: map<string, V>)
    requires |chains| > 0
  {
    forall i, j :: 0 <= i < |chains| && 0 <= j < |chains[i]| ==>
      h.requires(chains[i][j].key) && h(chains[i][j].key) % |chains| == i &&
      chains[i][j].key in m && m[chains[i][j].key] == chains[i][j].data
  }

  ghost predicate ChainsDistinct<V>(chains: seq<seq<Entry<V>>>)
  {
    forall i :: 0 <= i < |chains| ==> DistinctKeys(chains[i])
  }

  /** Every key of the map is found in the chain it hashes to. */
  ghost predicate Covered<V>(chains: seq<seq<Entry<V>>>, h: string --> nat, m: map<string, V>)
    requires |chains| > 0
  {
    forall k :: k in m ==> h.requires(k) && InChain(chains[h(k) % |chains|], k)
  }

  ghost predicate InChain<V>(chain: seq<Entry<V>>, k: string)
  {
    exists j :: 0 <= j < |chain| && chain[j].key == k
  }

  class HashMap<V> {
    const size: nat
    var hashFunction: string --> nat
    var buckets: array<seq<Entry<V>>>
    ghost var contents: map<string, V>

    ghost predicate Valid()
      reads this, buckets
    {
      size > 0 && buckets.Length == size && Layout(buckets[..], hashFunction, contents)
    }

    /** create_hashmap: `keySpace` empty chains and the additive hash. */
    constructor (keySpace: nat)
      requires keySpace > 0
      ensures Valid() && fresh(buckets)
      ensures size == keySpace && hashFunction == AdditiveHash && contents == map[]
    {
      size := keySpace;
      hashFunction := AdditiveHash;
      buckets := new seq<Entry<V>>[keySpace](_ => []);
      contents := map[];
    }

    /** get_bucket_index: the chain a key belongs in. */
    function BucketIndex(key: string): (i: nat)
      reads this
      requires size > 0 && hashFunction.requires(key)
      ensures i < size
    {
      hashFunction(key) % size
    }

    /** get_bucket: the position of the key's entry within its chain, or NULL. */
    method GetBucket(key: string) returns (pos: Option<nat>)
      requires Valid() && hashFunction.requires(key)
      ensures pos.None? <==> key !in contents
      ensures pos.Some? ==>
        pos.value < |buckets[BucketIndex(key)]| && buckets[BucketIndex(key)][pos.value].key == key
    {
      var chain := buckets[BucketIndex(key)];
      var node := 0;
      while node < |chain|
        invariant 0 <= node <= |chain|
        invariant forall j :: 0 <= j < node ==> chain[j].key != key
      {
        if chain[node].key == key {
          return Some(node);
        }
        node := node + 1;
      }
      return None;
    }

    /** get_data: the value stored under key, or NULL when the key is absent. */
    method GetData(key: string) returns (r: Option<V>)
      requires Valid() && hashFunction.requires(key)
      ensures key in contents ==> r == Some(contents[key])
      ensures key !in contents ==> r == None
    {
      var pos := GetBucket(key);
      if pos.Some? {
        return Some(buckets[BucketIndex(key)][pos.value].data);
      }
      return None;
    }

    /** add_bucket: link a new entry at the tail of its chain. */
    method AddBucket(entry: Entry<V>)
      requires Valid() && hashFunction.requires(entry.key) && entry.key !in contents
      modifies this, buckets
      ensures Valid() && buckets == old(buckets) && hashFunction == old(hashFunction)
      ensures contents == old(contents)[entry.key := entry.data]
      ensures buckets[BucketIndex(entry.key)] == old(buckets[BucketIndex(entry.key)]) + [entry]
      ensures forall i :: 0 <= i < size && i != BucketIndex(entry.key) ==> buckets[i] == old(buckets[i])
    {
      var i := BucketIndex(entry.key);
      LayoutAppend(buckets[..], hashFunction, contents, i, entry);
      buckets[i] := buckets[i] + [entry];
      contents := contents[entry.key := entry.data];
      assert buckets[..] == old(buckets[..])[i := old(buckets[i]) + [entry]];
    }

    /**
     * insert_data: an absent key gets a new entry at the tail of its chain; a
     * present key keeps its value when no resolver is given, and otherwise gets
     * resolve(old value, new value) in place.
     */
    method InsertData(key: string, data: V, resolve: Option<(V, V) -> V>)
      requires Valid() && hashFunction.requires(key)
      modifies this, buckets
      ensures Valid() && buckets == old(buckets) && hashFunction == old(hashFunction)
      ensures key !in old(contents) ==>
        && contents == old(contents)[key := data]
        && buckets[BucketIndex(key)] == old(buckets[BucketIndex(key)]) + [Entry(key, data)]
      ensures key in old(contents) && resolve.None? ==> contents == old(contents)
      ensures key in old(contents) && resolve.Some? ==>
        contents == old(contents)[key := resolve.value(old(contents)[key], data)]
      ensures key in old(contents) ==>
        exists j :: 0 <= j < |old(buckets[BucketIndex(key)])| && old(buckets[BucketIndex(key)])[j].key == key &&
          buckets[BucketIndex(key)] == old(buckets[BucketIndex(key)])[j := Entry(key, contents[key])]
      ensures forall i :: 0 <= i < size && i != BucketIndex(key) ==> buckets[i] == old(buckets[i])
    {
      var pos := GetBucket(key);
      if pos.None? {
        AddBucket(Entry(key, data));
      } else if resolve.None? {
        var i := BucketIndex(key);
        assert buckets[i][pos.value] == Entry(key, contents[key]);
        assert buckets[i] == buckets[i][pos.value := Entry(key, contents[key])];
      } else {
        var i := BucketIndex(key);
        var j := pos.value;
        var merged := resolve.value(buckets[i][j].data, data);
        LayoutReplace(buckets[..], hashFunction, contents, i, j, merged);
        buckets[i] := buckets[i][j := Entry(key, merged)];
        contents := contents[key := merged];
        assert buckets[..] == old(buckets[..])[i := old(buckets[i])[j := Entry(key, merged)]];
      }
    }

    /**
     * remove_data (with remove_bucket and get_bucket_prev): unlink the key's
     * entry from its chain, so its predecessor (or the chain head) now points
     * at its successor; an absent key changes nothing.
     */
    method RemoveData(key: string)
      requires Valid() && hashFunction.requires(key)
      modifies this, buckets
      ensures Valid() && buckets == old(buckets) && hashFunction == old(hashFunction)
      ensures key !in old(contents) ==> contents == old(contents) && buckets[..] == old(buckets[..])
      ensures key in old(contents) ==>
        && contents == old(contents) - {key}
        && exists j :: 0 <= j < |old(buckets[BucketIndex(key)])| &&
             old(buckets[BucketIndex(key)])[j].key == key &&
             buckets[BucketIndex(key)] == old(buckets[BucketIndex(key)])[..j] + old(buckets[BucketIndex(key)])[j + 1..]
      ensures forall i :: 0 <= i < size && i != BucketIndex(key) ==> buckets[i] == old(buckets[i])
    {
      var pos := GetBucket(key);
      if pos.Some? {
        var i := BucketIndex(key);
        var j := pos.value;
        var chain := buckets[i];
        LayoutRemove(buckets[..], hashFunction, contents, i, j);
        buckets[i] := chain[..j] + chain[j + 1..];
        contents := contents - {key};
        assert buckets[..] == old(buckets[..])[i := chain[..j] + chain[j + 1..]];
      }
    }

    /**
     * iterate: the callback calls, chain 0 first and each chain in link order;
     * every entry of the map is visited exactly once.
     */
    method Iterate() returns (visited: seq<Entry<V>>)
      requires Valid()
      ensures visited == Flatten(buckets[..])
      ensures DistinctKeys(visited)
      ensures forall k :: k in contents <==> exists n :: 0 <= n < |visited| && visited[n].key == k
      ensures forall n :: 0 <= n < |visited| ==>
        visited[n].key in contents && contents[visited[n].key] == visited[n].data
    {
      visited := [];
      for i := 0 to size
        invariant visited == Flatten(buckets[..i])
      {
        var chain := buckets[i];
        var node := 0;
        while node < |chain|
          invariant 0 <= node <= |chain|
          invariant visited == Flatten(buckets[..i]) + chain[..node]
        {
          visited := visited + [chain[node]];
          node := node + 1;
        }
        assert buckets[..i + 1][..i] == buckets[..i];
        assert chain[..node] == chain;
      }
      assert buckets[..size] == buckets[..];
      FlattenOfLayout(buckets[..], hashFunction, contents);
    }

    /**
     * set_hash_function: install the new function and redistribute every entry
     * through a temporary map filled by insert_data without a resolver, then
     * move the temporary chains into this map's bucket array. The key/value
     * mapping is unchanged.
     */
    method SetHashFunction(h: string --> nat)
      requires Valid()
      requires forall k :: k in contents ==> h.requires(k)
      modifies this, buckets
      ensures Valid() && buckets == old(buckets)
      ensures hashFunction == h && contents == old(contents)
    {
      ghost var h0 := hashFunction;
      hashFunction := h;
      var thm := new HashMap<V>(size);
      thm.hashFunction := h;
      thm.InsertAllFrom(buckets, h0, contents);
      for i := 0 to size
        invariant buckets == old(buckets) && buckets.Length == size && thm.buckets != buckets
        invariant hashFunction == h && contents == old(contents)
        invariant thm.Valid() && thm.contents == contents && thm.hashFunction == h && thm.size == size
        invariant forall k :: 0 <= k < i ==> buckets[k] == thm.buckets[k]
      {
        buckets[i] := thm.buckets[i];
      }
      assert buckets[..] == thm.buckets[..];
    }

    /**
     * The first loop of set_hash_function, run on the temporary map: insert
     * every entry of the old chains, chain by chain and in link order.
     */
    method InsertAllFrom(src: array<seq<Entry<V>>>, ghost h0: string --> nat, ghost m: map<string, V>)
      requires Valid() && contents == map[] && src.Length == size && src != buckets
      requires Layout(src[..], h0, m)
      requires forall k :: k in m ==> hashFunction.requires(k)
      modifies this, buckets
      ensures Valid() && contents == m
      ensures buckets == old(buckets) && hashFunction == old(hashFunction)
    {
      ghost var chains := src[..];
      for i := 0 to size
        invariant Valid() && buckets == old(buckets) && hashFunction == old(hashFunction)
        invariant contents == ToMap(Flatten(chains[..i]))
      {
        ghost var done := Flatten(chains[..i]);
        var chain := src[i];
        forall n | 0 <= n < |chain|
          ensures hashFunction.requires(chain[n].key) && chain[n].key !in ToMap(done + chain[..n])
        {
          FreshKey(chains, h0, m, i, n);
        }
        InsertChain(chain, done);
        assert chains[..i + 1][..i] == chains[..i];
      }
      assert chains[..size] == chains;
      ToMapOfFlatten(chains, h0, m);
    }

    /** The inner loop of that rehash: insert one old chain's entries in link order. */
    method InsertChain(chain: seq<Entry<V>>, ghost done: seq<Entry<V>>)
      requires Valid() && contents == ToMap(done)
      requires forall n :: 0 <= n < |chain| ==> hashFunction.requires(chain[n].key)
      requires forall n :: 0 <= n < |chain| ==> chain[n].key !in ToMap(done + chain[..n])
      modifies this, buckets
      ensures Valid() && contents == ToMap(done + chain)
      ensures buckets == old(buckets) && hashFunction == old(hashFunction)
    {
      assert done + chain[..0] == done;
      for node := 0 to |chain|
        invariant Valid() && buckets == old(buckets) && hashFunction == old(hashFunction)
        invariant contents == ToMap(done + chain[..node])
      {
        ToMapSnocPrefix(done, chain, node);
        InsertData(chain[node].key, chain[node].data, None);
      }
      assert chain[..|chain|] == chain;
    }
  }

  // ---------------------------------------------------------------------------
  // Lemmas about the representation invariant

  lemma LayoutAppend<V>(chains: seq<seq<Entry<V>>>, h: string --> nat, m: map<string, V>, i: nat, e: Entry<V>)
    requires Layout(chains, h, m) && h.requires(e.key) && e.key !in m
    requires i == h(e.key) % |chains|
    ensures Layout(chains[i := chains[i] + [e]], h, m[e.key := e.data])
  {
    var c := chains[i := chains[i] + [e]];
    var m' := m[e.key := e.data];
    forall k | k in m'
      ensures h.requires(k) && InChain(c[h(k) % |c|], k)
    {
      if k == e.key {
        assert c[i][|chains[i]|].key == k;
      } else {
        var j :| 0 <= j < |chains[h(k) % |chains|]| && chains[h(k) % |chains|][j].key == k;
        assert c[h(k) % |c|][j].key == k;
      }
    }
    forall a, b | 0 <= a < b < |c[i]|
      ensures c[i][a].key != c[i][b].key
    {
      if b == |chains[i]| {
        assert chains[i][a].key in m;
      }
    }
  }

  lemma LayoutReplace<V>(chains: seq<seq<Entry<V>>>, h: string --> nat, m: map<string, V>, i: nat, j: nat, d: V)
    requires Layout(chains, h, m) && i < |chains| && j < |chains[i]|
    ensures Layout(chains[i := chains[i][j := Entry(chains[i][j].key, d)]], h, m[chains[i][j].key := d])
  {
    var k0 := chains[i][j].key;
    var c := chains[i := chains[i][j := Entry(k0, d)]];
    forall k | k in m[k0 := d]
      ensures h.requires(k) && InChain(c[h(k) % |c|], k)
    {
      var jj :| 0 <= jj < |chains[h(k) % |chains|]| && chains[h(k) % |chains|][jj].key == k;
      assert c[h(k) % |c|][jj].key == k;
    }
    forall a, b | 0 <= a < |c| && 0 <= b < |c[a]|
      ensures c[a][b].key in m[k0 := d] && m[k0 := d][c[a][b].key] == c[a][b].data
    {
      if a == i && b != j {
        assert chains[i][b].key != k0 by {
          assert DistinctKeys(chains[i]);
        }
      }
    }
  }

  lemma LayoutRemove<V>(chains: seq<seq<Entry<V>>>, h: string --> nat, m: map<string, V>, i: nat, j: nat)
    requires Layout(chains, h, m) && i < |chains| && j < |chains[i]|
    ensures Layout(chains[i := chains[i][..j] + chains[i][j + 1..]], h, m - {chains[i][j].key})
  {
    var c := chains[i := chains[i][..j] + chains[i][j + 1..]];
    RemoveShift(chains[i], j, c[i]);
    assert DistinctKeys(chains[i]);
    RemovePlaced(chains, h, m, i, j, c);
    RemoveCovered(chains, h, m, i, j, c);
  }

  /** Unlinking entry j shifts the later entries down by one. */
  lemma RemoveShift<V>(chain: seq<Entry<V>>, j: nat, rest: seq<Entry<V>>)
    requires j < |chain| && rest == chain[..j] + chain[j + 1..]
    ensures |rest| == |chain| - 1
    ensures forall b :: 0 <= b < |rest| ==> rest[b] == chain[if b < j then b else b + 1]
  {
  }

  lemma RemovePlaced<V>(chains: seq<seq<Entry<V>>>, h: string --> nat, m: map<string, V>, i: nat, j: nat,
                        c: seq<seq<Entry<V>>>)
    requires |chains| > 0 && Placed(chains, h, m) && i < |chains| && j < |chains[i]| && DistinctKeys(chains[i])
    requires c == chains[i := chains[i][..j] + chains[i][j + 1..]]
    requires forall b :: 0 <= b < |chains[i]| - 1 ==> c[i][b] == chains[i][if b < j then b else b + 1]
    ensures Placed(c, h, m - {chains[i][j].key}) && ChainsDistinct(c) == ChainsDistinct(chains)
  {
    var k0 := chains[i][j].key;
    forall a, b | 0 <= a < |c| && 0 <= b < |c[a]|
      ensures c[a][b].key != k0
    {
      if a == i {
        assert c[a][b] == chains[i][if b < j then b else b + 1];
      }
    }
    assert ChainsDistinct(c) == ChainsDistinct(chains) by {
      RemoveDistinct(chains[i], j);
      assert forall a :: 0 <= a < |c| && a != i ==> c[a] == chains[a];
    }
  }

  lemma RemoveDistinct<V>(chain: seq<Entry<V>>, j: nat)
    requires j < |chain|
    ensures DistinctKeys(chain) ==> DistinctKeys(chain[..j] + chain[j + 1..])
  {
    RemoveShift(chain, j, chain[..j] + chain[j + 1..]);
  }

  lemma RemoveCovered<V>(chains: seq<seq<Entry<V>>>, h: string --> nat, m: map<string, V>, i: nat, j: nat,
                         c: seq<seq<Entry<V>>>)
    requires |chains| > 0 && Covered(chains, h, m) && Placed(chains, h, m) && i < |chains| && j < |chains[i]|
    requires c == chains[i := chains[i][..j] + chains[i][j + 1..]]
    requires forall b :: 0 <= b < |chains[i]| - 1 ==> c[i][b] == chains[i][if b < j then b else b + 1]
    ensures Covered(c, h, m - {chains[i][j].key})
  {
    forall k | k in m - {chains[i][j].key}
      ensures h.requires(k) && InChain(c[h(k) % |c|], k)
    {
      var jj :| 0 <= jj < |chains[h(k) % |chains|]| && chains[h(k) % |chains|][jj].key == k;
      if h(k) % |chains| == i {
        var b := if jj < j then jj else jj - 1;
        assert c[i][b].key == k;
      } else {
        assert c[h(k) % |c|][jj].key == k;
      }
    }
  }

  /** Entries of Flatten(chains) are exactly the entries of the chains. */
  lemma {:induction false} FlattenMember<V>(chains: seq<seq<Entry<V>>>, n: nat)
    requires n < |Flatten(chains)|
    ensures exists i, j :: 0 <= i < |chains| && 0 <= j < |chains[i]| && Flatten(chains)[n] == chains[i][j]
    decreases |chains|
  {
    var init := chains[..|chains| - 1];
    var last := chains[|chains| - 1];
    if n < |Flatten(init)| {
      FlattenMember(init, n);
      var i, j :| 0 <= i < |init| && 0 <= j < |init[i]| && Flatten(init)[n] == init[i][j];
      assert chains[i] == init[i];
    } else {
      assert Flatten(chains)[n] == last[n - |Flatten(init)|];
    }
  }

  lemma {:induction false} FlattenContains<V>(chains: seq<seq<Entry<V>>>, i: nat, j: nat)
    requires i < |chains| && j < |chains[i]|
    ensures exists n :: 0 <= n < |Flatten(chains)| && Flatten(chains)[n] == chains[i][j]
    decreases |chains|
  {
    var init := chains[..|chains| - 1];
    if i < |chains| - 1 {
      FlattenContains(init, i, j);
      var n :| 0 <= n < |Flatten(init)| && Flatten(init)[n] == init[i][j];
      assert Flatten(chains)[n] == chains[i][j];
    } else {
      assert Flatten(chains)[|Flatten(init)| + j] == chains[i][j];
    }
  }

  /** Under the layout the flattened entries have distinct keys. */
  lemma {:induction false} FlattenDistinct<V>(chains: seq<seq<Entry<V>>>, h: string --> nat, m: map<string, V>, k: nat)
    requires Layout(chains, h, m) && k <= |chains|
    ensures DistinctKeys(Flatten(chains[..k]))
    decreases k
  {
    if k > 0 {
      var init := chains[..k - 1];
      var last := chains[k - 1];
      assert chains[..k][..k - 1] == init;
      FlattenDistinct(chains, h, m, k - 1);
      var f := Flatten(chains[..k]);
      var fi := Flatten(init);
      assert f == fi + last;
      forall a, b | 0 <= a < b < |f|
        ensures f[a].key != f[b].key
      {
        if b >= |fi| && a < |fi| {
          FlattenMember(init, a);
          var i, j :| 0 <= i < |init| && 0 <= j < |init[i]| && fi[a] == init[i][j];
          assert chains[i][j] == init[i][j];
          assert last[b - |fi|] == chains[k - 1][b - |fi|];
        } else if a >= |fi| {
          assert DistinctKeys(chains[k - 1]);
          assert f[a] == last[a - |fi|] && f[b] == last[b - |fi|];
        }
      }
    }
  }

  /** Extending a prefix of the chain by its next entry adds that entry to the map. */
  lemma ToMapSnocPrefix<V>(done: seq<Entry<V>>, chain: seq<Entry<V>>, n: nat)
    requires n < |chain|
    ensures ToMap(done + chain[..n + 1]) == ToMap(done + chain[..n])[chain[n].key := chain[n].data]
  {
    assert done + chain[..n + 1] == (done + chain[..n]) + [chain[n]];
    ToMapSnoc(done + chain[..n], chain[n]);
  }

  lemma ToMapSnoc<V>(s: seq<Entry<V>>, e: Entry<V>)
    ensures ToMap(s + [e]) == ToMap(s)[e.key := e.data]
  {
    assert (s + [e])[..|s|] == s;
  }

  lemma {:induction false} ToMapKeys<V>(s: seq<Entry<V>>, k: string)
    ensures k in ToMap(s) <==> exists n :: 0 <= n < |s| && s[n].key == k
    decreases |s|
  {
    if s != [] {
      var init := s[..|s| - 1];
      ToMapKeys(init, k);
      if k in ToMap(init) {
        var n :| 0 <= n < |init| && init[n].key == k;
        assert s[n].key == k;
      }
      if exists n :: 0 <= n < |s| && s[n].key == k {
        var n :| 0 <= n < |s| && s[n].key == k;
        if n < |s| - 1 {
          assert init[n].key == k;
        }
      }
    }
  }

  lemma {:induction false} ToMapValue<V>(s: seq<Entry<V>>, n: nat)
    requires DistinctKeys(s) && n < |s|
    ensures s[n].key in ToMap(s) && ToMap(s)[s[n].key] == s[n].data
    decreases |s|
  {
    if n < |s| - 1 {
      var init := s[..|s| - 1];
      assert DistinctKeys(init);
      ToMapValue(init, n);
      assert s[|s| - 1].key != s[n].key;
    }
  }

  /** The map described by the flattened chains is the abstract map. */
  lemma ToMapOfFlatten<V>(chains: seq<seq<Entry<V>>>, h: string --> nat, m: map<string, V>)
    requires Layout(chains, h, m)
    ensures ToMap(Flatten(chains)) == m
  {
    var f := Flatten(chains);
    assert chains[..|chains|] == chains;
    FlattenDistinct(chains, h, m, |chains|);
    forall k | k in m
      ensures k in ToMap(f) && ToMap(f)[k] == m[k]
    {
      var i := h(k) % |chains|;
      var j :| 0 <= j < |chains[i]| && chains[i][j].key == k;
      FlattenContains(chains, i, j);
      var n :| 0 <= n < |f| && f[n] == chains[i][j];
      ToMapValue(f, n);
    }
    forall k | k in ToMap(f)
      ensures k in m
    {
      ToMapKeys(f, k);
      var n :| 0 <= n < |f| && f[n].key == k;
      FlattenMember(chains, n);
    }
  }

  /** What `iterate` promises, stated on the chains. */
  lemma FlattenOfLayout<V>(chains: seq<seq<Entry<V>>>, h: string --> nat, m: map<string, V>)
    requires Layout(chains, h, m)
    ensures DistinctKeys(Flatten(chains))
    ensures forall k :: k in m <==> exists n :: 0 <= n < |Flatten(chains)| && Flatten(chains)[n].key == k
    ensures forall n :: 0 <= n < |Flatten(chains)| ==>
      Flatten(chains)[n].key in m && m[Flatten(chains)[n].key] == Flatten(chains)[n].data
  {
    var f := Flatten(chains);
    assert chains[..|chains|] == chains;
    FlattenDistinct(chains, h, m, |chains|);
    ToMapOfFlatten(chains, h, m);
    forall k
      ensures k in m <==> exists n :: 0 <= n < |f| && f[n].key == k
    {
      ToMapKeys(f, k);
    }
    forall n | 0 <= n < |f|
      ensures f[n].key in m && m[f[n].key] == f[n].data
    {
      ToMapValue(f, n);
    }
  }

  /** During the rehash, the next entry's key has not been inserted yet. */
  lemma FreshKey<V>(chains: seq<seq<Entry<V>>>, h: string --> nat, m: map<string, V>, i: nat, j: nat)
    requires Layout(chains, h, m) && i < |chains| && j < |chains[i]|
    ensures chains[i][j].key !in ToMap(Flatten(chains[..i]) + chains[i][..j])
  {
    var fi := Flatten(chains[..i]);
    var p := fi + chains[i][..j];
    var k := chains[i][j].key;
    forall n | 0 <= n < |p|
      ensures p[n].key != k
    {
      if n < |fi| {
        FlattenMember(chains[..i], n);
        var a, b :| 0 <= a < i && 0 <= b < |chains[..i][a]| && fi[n] == chains[..i][a][b];
        assert chains[a][b] == fi[n];
      } else {
        assert p[n] == chains[i][n - |fi|];
        assert DistinctKeys(chains[i]);
      }
    }
    ToMapKeys(p, k);
  }
}
