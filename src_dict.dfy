/**
 * The chained hash dictionary of src/dict.c: `max_size` buckets, each a
 * chain of pairs (key, value, destructor), placed by the djb2 hash of the
 * key. A chain is modelled as the sequence of its pairs from the bucket
 * head; a key is the C string up to its terminating NUL. The abstract
 * state is the finite map from keys to what was set for them.
 */
module SrcDict {
  import opened Common

  /** DICT_MAX_KEY_SIZE: the bytes a pair holds for its key, terminator included. */
  const MaxKeySize: nat := 64

  /** The range of a 64-bit `size_t`. */
  const SizeModulus: nat := 0x1_0000_0000_0000_0000

  /** A C string of bytes: each character a non-NUL byte. */
  ghost predicate IsCString(key: string) {
    forall i :: 0 <= i < |key| ==> 0 < key[i] as int < 256
  }

  /** A key the pair stores whole: a C string with room for its terminator. */
  ghost predicate IsKey(key: string) {
    |key| < MaxKeySize && IsCString(key)
  }

  /** The djb2 hash: 5381, then h * 33 + c for each byte, wrapping at 2^64. */
  function Djb2(key: string): (h: nat)
    ensures h < SizeModulus
  {
    if |key| == 0 then 5381 else (33 * Djb2(key[..|key| - 1]) + key[|key| - 1] as int) % SizeModulus
  }

  /** The same recurrence in unbounded arithmetic. */
  function Djb2Exact(key: string): nat {
    if |key| == 0 then 5381 else 33 * Djb2Exact(key[..|key| - 1]) + key[|key| - 1] as int
  }

  /** Adding a multiple of the modulus changes no remainder. */
  lemma ModShift(x: int, q: int)
    ensures (x + q * SizeModulus) % SizeModulus == x % SizeModulus
  {
    var r := x % SizeModulus;
    var d := x / SizeModulus;
    assert x + q * SizeModulus == (d + q) * SizeModulus + r;
  }

  /** The wrapping hash is the exact one taken modulo 2^64: reducing after every step loses nothing. */
  lemma {:induction false} Djb2Wraps(key: string)
    ensures Djb2(key) == Djb2Exact(key) % SizeModulus
  {
    if |key| > 0 {
      var p := key[..|key| - 1];
      var c := key[|key| - 1] as int;
      Djb2Wraps(p);
      var e := Djb2Exact(p);
      assert e == e % SizeModulus + (e / SizeModulus) * SizeModulus;
      ModShift(33 * (e % SizeModulus) + c, 33 * (e / SizeModulus));
    }
  }

  /** The bucket of a key in a table of `n` buckets: hash(key) % max_size. */
  function Bucket(key: string, n: nat): (b: nat)
    requires n > 0
    ensures b < n
  {
    Djb2(key) % n
  }

  /** What a key maps to: the value pointer and the destructor dict_delete will call on it. */
  datatype Destructor = NoDestructor | Free | Custom(id: nat)
  datatype Entry<V> = Entry(value: V, del: Destructor)
  /** struct dict_pair, without its `next` link. */
  datatype Pair<V> = Pair(key: string, entry: Entry<V>)
  /** One call of a destructor on a value. */
  datatype Call<V> = Call(del: Destructor, value: V)

  /**
   * Every pair of bucket `b` is a key hashing to `b` whose entry the map
   * records, and no key occurs twice in the chain.
   */
  ghost predicate ChainOk<V>(chain: seq<Pair<V>>, b: nat, n: nat, contents: map<string, Entry<V>>) {
    && (forall j :: 0 <= j < |chain| ==>
          IsKey(chain[j].key) && n > 0 && Bucket(chain[j].key, n) == b
          && chain[j].key in contents && contents[chain[j].key] == chain[j].entry)
    && (forall j1, j2 :: 0 <= j1 < j2 < |chain| ==> chain[j1].key != chain[j2].key)
  }

  /**
   * The bucket invariant: every chain is in order, and every key of the map
   * sits at its recorded position in the chain of its bucket.
   */
  ghost predicate Table<V>(buckets: seq<seq<Pair<V>>>, contents: map<string, Entry<V>>, pos: map<string, nat>) {
    && (forall b :: 0 <= b < |buckets| ==> ChainOk(buckets[b], b, |buckets|, contents))
    && (forall k {:trigger k in pos} :: k in contents ==>
          IsKey(k) && |buckets| > 0 && k in pos
          && pos[k] < |buckets[Bucket(k, |buckets|)]|
          && buckets[Bucket(k, |buckets|)][pos[k]].key == k)
  }

  /** Where the invariant places a key of the map. */
  lemma Placed<V>(buckets: seq<seq<Pair<V>>>, contents: map<string, Entry<V>>, pos: map<string, nat>, k: string)
    requires Table(buckets, contents, pos) && k in contents
    ensures IsKey(k) && |buckets| > 0 && k in pos && pos[k] < |buckets[Bucket(k, |buckets|)]|
    ensures buckets[Bucket(k, |buckets|)][pos[k]].key == k
  {
    if k !in pos {
      assert false;
    }
  }

  /** A key found in its bucket's chain is in the map with the entry found. */
  lemma Found<V>(buckets: seq<seq<Pair<V>>>, contents: map<string, Entry<V>>, pos: map<string, nat>, key: string, j: nat)
    requires Table(buckets, contents, pos) && |buckets| > 0
    requires j < |buckets[Bucket(key, |buckets|)]| && buckets[Bucket(key, |buckets|)][j].key == key
    ensures key in contents && pos[key] == j && contents[key] == buckets[Bucket(key, |buckets|)][j].entry
  {
    var b := Bucket(key, |buckets|);
    assert ChainOk(buckets[b], b, |buckets|, contents);
    Placed(buckets, contents, pos, key);
  }

  /** A key missing from its bucket's chain is not in the map. */
  lemma Absent<V>(buckets: seq<seq<Pair<V>>>, contents: map<string, Entry<V>>, pos: map<string, nat>, key: string)
    requires Table(buckets, contents, pos) && |buckets| > 0
    requires forall j :: 0 <= j < |buckets[Bucket(key, |buckets|)]| ==> buckets[Bucket(key, |buckets|)][j].key != key
    ensures key !in contents
  {
    if key in contents {
      Placed(buckets, contents, pos, key);
    }
  }

  /** Appending a new key to the end of its bucket keeps the invariant and adds the key to the map. */
  lemma Append<V>(buckets: seq<seq<Pair<V>>>, contents: map<string, Entry<V>>, pos: map<string, nat>, key: string, e: Entry<V>)
    requires Table(buckets, contents, pos) && |buckets| > 0 && IsKey(key) && key !in contents
    ensures
      var b := Bucket(key, |buckets|);
      Table(buckets[b := buckets[b] + [Pair(key, e)]], contents[key := e], pos[key := |buckets[b]|])
  {
    var b := Bucket(key, |buckets|);
    var nb := buckets[b := buckets[b] + [Pair(key, e)]];
    var nc := contents[key := e];
    var np := pos[key := |buckets[b]|];
    forall i | 0 <= i < |nb|
      ensures ChainOk(nb[i], i, |nb|, nc)
    {
      assert ChainOk(buckets[i], i, |buckets|, contents);
    }
    forall k | k in nc
      ensures IsKey(k) && k in np && np[k] < |nb[Bucket(k, |nb|)]| && nb[Bucket(k, |nb|)][np[k]].key == k
    {
      if k != key {
        Placed(buckets, contents, pos, k);
      }
    }
  }

  /** Replacing the entry of a key found at position `j` keeps the invariant and updates the map. */
  lemma Replace<V>(buckets: seq<seq<Pair<V>>>, contents: map<string, Entry<V>>, pos: map<string, nat>, key: string, j: nat, e: Entry<V>)
    requires Table(buckets, contents, pos) && |buckets| > 0
    requires j < |buckets[Bucket(key, |buckets|)]| && buckets[Bucket(key, |buckets|)][j].key == key
    ensures
      var b := Bucket(key, |buckets|);
      Table(buckets[b := buckets[b][j := Pair(key, e)]], contents[key := e], pos)
  {
    var b := Bucket(key, |buckets|);
    var nb := buckets[b := buckets[b][j := Pair(key, e)]];
    var nc := contents[key := e];
    Found(buckets, contents, pos, key, j);
    forall i | 0 <= i < |nb|
      ensures ChainOk(nb[i], i, |nb|, nc)
    {
      assert ChainOk(buckets[i], i, |buckets|, contents);
    }
    forall k | k in nc
      ensures IsKey(k) && k in pos && pos[k] < |nb[Bucket(k, |nb|)]| && nb[Bucket(k, |nb|)][pos[k]].key == k
    {
      Placed(buckets, contents, pos, k);
    }
  }

  /** The destructor calls for a chain, head first: one per pair that has a destructor. */
  function ChainCalls<V>(chain: seq<Pair<V>>): seq<Call<V>> {
    if |chain| == 0 then []
    else
      var p := chain[|chain| - 1];
      ChainCalls(chain[..|chain| - 1]) + (if p.entry.del.NoDestructor? then [] else [Call(p.entry.del, p.entry.value)])
  }

  /** The destructor calls for a table, bucket by bucket. */
  function TableCalls<V>(buckets: seq<seq<Pair<V>>>): seq<Call<V>> {
    if |buckets| == 0 then [] else TableCalls(buckets[..|buckets| - 1]) + ChainCalls(buckets[|buckets| - 1])
  }

  /** A pair with a destructor yields a call in its chain's calls. */
  lemma {:induction false} ChainCallsHas<V>(chain: seq<Pair<V>>, j: nat)
    requires j < |chain| && !chain[j].entry.del.NoDestructor?
    ensures Call(chain[j].entry.del, chain[j].entry.value) in ChainCalls(chain)
  {
    if j < |chain| - 1 {
      ChainCallsHas(chain[..|chain| - 1], j);
    }
  }

  /** A call of one chain is a call of the table. */
  lemma {:induction false} TableCallsHas<V>(buckets: seq<seq<Pair<V>>>, b: nat, c: Call<V>)
    requires b < |buckets| && c in ChainCalls(buckets[b])
    ensures c in TableCalls(buckets)
  {
    if b < |buckets| - 1 {
      TableCallsHas(buckets[..|buckets| - 1], b, c);
    }
  }

  /** dict_delete calls the destructor of every key that has one, on the value set last. */
  lemma AllReleased<V>(buckets: seq<seq<Pair<V>>>, contents: map<string, Entry<V>>, pos: map<string, nat>, key: string)
    requires Table(buckets, contents, pos) && key in contents && !contents[key].del.NoDestructor?
    ensures Call(contents[key].del, contents[key].value) in TableCalls(buckets)
  {
    Placed(buckets, contents, pos, key);
    var b := Bucket(key, |buckets|);
    assert ChainOk(buckets[b], b, |buckets|, contents);
    ChainCallsHas(buckets[b], pos[key]);
    TableCallsHas(buckets, b, Call(contents[key].del, contents[key].value));
  }

  /** Every call of a chain is the destructor and value of one of its pairs. */
  lemma {:induction false} ChainCallsFrom<V>(chain: seq<Pair<V>>, c: Call<V>)
    requires c in ChainCalls(chain)
    ensures !c.del.NoDestructor?
    ensures exists j :: 0 <= j < |chain| && chain[j].entry == Entry(c.value, c.del)
  {
    var last := chain[|chain| - 1];
    if c in ChainCalls(chain[..|chain| - 1]) {
      ChainCallsFrom(chain[..|chain| - 1], c);
      var j :| 0 <= j < |chain| - 1 && chain[..|chain| - 1][j].entry == Entry(c.value, c.del);
      assert chain[j].entry == Entry(c.value, c.del);
    } else {
      assert chain[|chain| - 1].entry == Entry(c.value, c.del);
    }
  }

  /** Every call of a table is the destructor and value of one of its pairs. */
  lemma {:induction false} TableCallsFrom<V>(buckets: seq<seq<Pair<V>>>, c: Call<V>)
    requires c in TableCalls(buckets)
    ensures !c.del.NoDestructor?
    ensures exists b, j :: 0 <= b < |buckets| && 0 <= j < |buckets[b]| && buckets[b][j].entry == Entry(c.value, c.del)
  {
    var n := |buckets| - 1;
    if c in TableCalls(buckets[..n]) {
      TableCallsFrom(buckets[..n], c);
      var b, j :| 0 <= b < n && 0 <= j < |buckets[..n][b]| && buckets[..n][b][j].entry == Entry(c.value, c.del);
      assert buckets[b][j].entry == Entry(c.value, c.del);
    } else {
      ChainCallsFrom(buckets[n], c);
    }
  }

  /** dict_delete calls destructors only on values the map holds, each with the destructor set for it. */
  lemma OnlyReleased<V>(buckets: seq<seq<Pair<V>>>, contents: map<string, Entry<V>>, pos: map<string, nat>, c: Call<V>)
    requires Table(buckets, contents, pos) && c in TableCalls(buckets)
    ensures !c.del.NoDestructor? && Entry(c.value, c.del) in contents.Values
  {
    TableCallsFrom(buckets, c);
    var b, j :| 0 <= b < |buckets| && 0 <= j < |buckets[b]| && buckets[b][j].entry == Entry(c.value, c.del);
    assert ChainOk(buckets[b], b, |buckets|, contents);
    var k := buckets[b][j].key;
    assert k in contents && contents[k] == Entry(c.value, c.del);
  }

  /**
   * The `next` field of a pair in memory: assigned (to the following pair
   * or to NULL), or never written since the pair's malloc. dict_set
   * (src/dict.c:64-73) assigns the `next` of the pair it appends after
   * and never that of the new pair; the Dict class below takes the new
   * link as NULL.
   */
  datatype Link = Assigned | Uninitialised

  /** A pair of a chain together with the state of its `next` field. */
  datatype LinkedPair<V> = LinkedPair(pair: Pair<V>, next: Link)

  /** The pairs of a chain, links dropped: the chain as the Dict class holds it. */
  function Pairs<V>(chain: seq<LinkedPair<V>>): seq<Pair<V>> {
    seq(|chain|, k requires 0 <= k < |chain| => chain[k].pair)
  }

  /** The links of a chain in order: those dict_clear reads (src/dict.c:116), one per pair. */
  function Links<V>(chain: seq<LinkedPair<V>>): seq<Link> {
    seq(|chain|, k requires 0 <= k < |chain| => chain[k].next)
  }

  /** The shape dict_set as written leaves a non-empty chain in: every link assigned but the last pair's. */
  ghost predicate EndsUninitialised<V>(chain: seq<LinkedPair<V>>) {
    && |chain| > 0
    && chain[|chain| - 1].next == Uninitialised
    && forall k :: 0 <= k < |chain| - 1 ==> chain[k].next == Assigned
  }

  /** Every link of the chain assigned. */
  ghost predicate AllAssigned<V>(chain: seq<LinkedPair<V>>) {
    forall k :: 0 <= k < |chain| ==> chain[k].next == Assigned
  }

  /**
   * dict_set's append as written: the old last pair's `next` now points
   * at the new pair, whose own `next` is left as malloc returned it.
   */
  function AppendedAsWritten<V>(chain: seq<LinkedPair<V>>, p: Pair<V>): (r: seq<LinkedPair<V>>)
    ensures Pairs(r) == Pairs(chain) + [p]
    ensures r[|chain|].next == Uninitialised
    ensures |chain| > 0 ==> r[|chain| - 1].next == Assigned
    ensures forall k :: 0 <= k < |chain| - 1 ==> r[k] == chain[k]
    ensures |chain| == 0 || EndsUninitialised(chain) ==> EndsUninitialised(r)
  {
    var front := if |chain| == 0 then [] else chain[..|chain| - 1] + [chain[|chain| - 1].(next := Assigned)];
    front + [LinkedPair(p, Uninitialised)]
  }

  /** dict_set's append with the new pair's `next` set to NULL. */
  function AppendedCorrected<V>(chain: seq<LinkedPair<V>>, p: Pair<V>): (r: seq<LinkedPair<V>>)
    ensures Pairs(r) == Pairs(chain) + [p]
    ensures AllAssigned(chain) ==> AllAssigned(r)
  {
    var front := if |chain| == 0 then [] else chain[..|chain| - 1] + [chain[|chain| - 1].(next := Assigned)];
    front + [LinkedPair(p, Assigned)]
  }

  /**
   * The `next` fields the walks of dict_get (src/dict.c:92-95) and
   * dict_set (lines 54-61) read while looking for `key`: that of every
   * pair before the first one holding it, or of every pair when none does.
   */
  function WalkReads<V>(chain: seq<LinkedPair<V>>, key: string): (r: seq<Link>)
    ensures |r| <= |chain| && forall k :: 0 <= k < |r| ==> r[k] == chain[k].next
    ensures forall k :: 0 <= k < |r| ==> chain[k].pair.key != key
    ensures |r| < |chain| ==> chain[|r|].pair.key == key
  {
    if |chain| == 0 || chain[0].pair.key == key then [] else [chain[0].next] + WalkReads(chain[1..], key)
  }

  /**
   * As written, once a bucket holds a pair, looking for a key it does not
   * hold reads the uninitialised `next` of its last pair: dict_get of a
   * missing key, and dict_set of a new key in that bucket.
   */
  lemma MissingKeyReadsUninitialised<V>(chain: seq<LinkedPair<V>>, key: string)
    requires EndsUninitialised(chain)
    requires forall k :: 0 <= k < |chain| ==> chain[k].pair.key != key
    ensures Uninitialised in WalkReads(chain, key)
  {
    var r := WalkReads(chain, key);
    assert r[|chain| - 1] == Uninitialised;
  }

  /** As written, dict_clear (and so dict_delete) of any non-empty bucket reads an uninitialised link. */
  lemma ClearReadsUninitialised<V>(chain: seq<LinkedPair<V>>)
    requires EndsUninitialised(chain)
    ensures Uninitialised in Links(chain)
  {
    assert Links(chain)[|chain| - 1] == Uninitialised;
  }

  /**
   * The smallest case: the first dict_set into an empty bucket leaves a
   * chain on which dict_get or dict_set of any other key in that bucket
   * reads the new pair's unwritten `next`.
   */
  lemma SecondKeyScenario<V>(p: Pair<V>, key: string)
    requires p.key != key
    ensures WalkReads(AppendedAsWritten([], p), key) == [Uninitialised]
  {
  }

  /**
   * With the new link set to NULL, chains built from empty by dict_set
   * never hold an unwritten link, so neither walk nor dict_clear reads one.
   */
  lemma CorrectedReadsAssigned<V>(chain: seq<LinkedPair<V>>, key: string)
    requires AllAssigned(chain)
    ensures Uninitialised !in WalkReads(chain, key) && Uninitialised !in Links(chain)
  {
  }

  class Dict<V(==)> {
    /** The hashtable: one chain per bucket. */
    var table: array<seq<Pair<V>>>
    var length: nat
    const maxSize: nat
    /** The keys set so far and what was set for them last. */
    ghost var contents: map<string, Entry<V>>
    /** Where each key sits in its bucket's chain. */
    ghost var pos: map<string, nat>

    ghost predicate Valid()
      reads this, table
    {
      table.Length == maxSize && length == |contents| && Table(table[..], contents, pos)
    }

    /** dict_create: `hashtableSize` empty buckets and length 0. */
    constructor (hashtableSize: nat)
      ensures Valid() && fresh(table) && maxSize == hashtableSize
      ensures contents == map[] && length == 0
      ensures forall b :: 0 <= b < table.Length ==> table[b] == []
    {
      table := new seq<Pair<V>>[hashtableSize](_ => []);
      length := 0;
      maxSize := hashtableSize;
      contents, pos := map[], map[];
    }

    /** dict_size: the number of distinct keys set. */
    function Size(): (n: nat)
      reads this, table
      requires Valid()
      ensures n == |contents|
    {
      length
    }

    /**
     * dict_set: search the key's bucket; a key found gets the new value and
     * destructor in place, length unchanged. Otherwise, when malloc
     * succeeds (`ok`), a new pair goes at the end of the chain and length
     * grows by one; when it fails, nothing changes.
     */
    method Set(key: string, value: V, del: Destructor, ok: bool)
      requires Valid() && maxSize > 0 && IsKey(key)
      modifies this, table
      ensures Valid() && table == old(table)
      ensures key in old(contents) || ok ==> contents == old(contents)[key := Entry(value, del)]
      ensures key !in old(contents) && !ok ==> contents == old(contents)
      ensures length == old(length) + (if key in old(contents) || !ok then 0 else 1)
      ensures key !in old(contents) && ok ==>
        table[Bucket(key, maxSize)] == old(table[Bucket(key, maxSize)]) + [Pair(key, Entry(value, del))]
      ensures forall b :: 0 <= b < table.Length && b != Bucket(key, maxSize) ==> table[b] == old(table[b])
    {
      var h := Hash(key);
      var index := h % maxSize;
      var found := Search(table[index], key);
      if found.Some? {
        Update(index, found.value, key, Entry(value, del));
      } else {
        Absent(table[..], contents, pos, key);
        if ok {
          Insert(index, key, Entry(value, del));
        }
      }
    }

    /** dict_set on a key found at position `j` of its chain: the pair takes the new value and destructor. */
    method Update(index: nat, j: nat, key: string, e: Entry<V>)
      requires Valid() && maxSize > 0 && index == Bucket(key, maxSize)
      requires j < |table[index]| && table[index][j].key == key
      modifies this, table
      ensures Valid() && table == old(table) && key in old(contents)
      ensures table[index] == old(table[index])[j := Pair(key, e)]
      ensures forall b :: 0 <= b < table.Length && b != index ==> table[b] == old(table[b])
      ensures contents == old(contents)[key := e] && length == old(length)
    {
      Found(table[..], contents, pos, key, j);
      Replace(table[..], contents, pos, key, j, e);
      ghost var nb := table[..][index := table[index][j := Pair(key, e)]];
      table[index] := table[index][j := Pair(key, e)];
      assert table[..] == nb;
      contents := contents[key := e];
    }

    /** dict_set on a key its chain lacks: a new pair at the end of the chain, one more in length. */
    method Insert(index: nat, key: string, e: Entry<V>)
      requires Valid() && maxSize > 0 && index == Bucket(key, maxSize) && IsKey(key) && key !in contents
      modifies this, table
      ensures Valid() && table == old(table)
      ensures table[index] == old(table[index]) + [Pair(key, e)]
      ensures forall b :: 0 <= b < table.Length && b != index ==> table[b] == old(table[b])
      ensures contents == old(contents)[key := e] && length == old(length) + 1
    {
      Append(table[..], contents, pos, key, e);
      ghost var nb := table[..][index := table[index] + [Pair(key, e)]];
      pos := pos[key := |table[index]|];
      table[index] := table[index] + [Pair(key, e)];
      assert table[..] == nb;
      contents := contents[key := e];
      length := length + 1;
    }

    /** dict_setobj: dict_set with `free` as the destructor. */
    method SetObj(key: string, value: V, ok: bool)
      requires Valid() && maxSize > 0 && IsKey(key)
      modifies this, table
      ensures Valid() && table == old(table)
      ensures key in old(contents) || ok ==> contents == old(contents)[key := Entry(value, Free)]
      ensures key !in old(contents) && !ok ==> contents == old(contents)
    {
      Set(key, value, Free, ok);
    }

    /** dict_setref: dict_set with no destructor. */
    method SetRef(key: string, value: V, ok: bool)
      requires Valid() && maxSize > 0 && IsKey(key)
      modifies this, table
      ensures Valid() && table == old(table)
      ensures key in old(contents) || ok ==> contents == old(contents)[key := Entry(value, NoDestructor)]
      ensures key !in old(contents) && !ok ==> contents == old(contents)
    {
      Set(key, value, NoDestructor, ok);
    }

    /**
     * dict_get: the value last set for the key, or NULL when it was never
     * set. Every stored key is shorter than DICT_MAX_KEY_SIZE, so a longer
     * one is never found.
     */
    method Get(key: string) returns (r: Option<V>)
      requires Valid() && maxSize > 0 && IsCString(key)
      ensures r == if key in contents then Some(contents[key].value) else None
      ensures |key| >= MaxKeySize ==> r == None
    {
      var h := Hash(key);
      var chain := table[h % maxSize];
      var found := Search(chain, key);
      if found.Some? {
        Found(table[..], contents, pos, key, found.value);
        r := Some(chain[found.value].entry.value);
      } else {
        Absent(table[..], contents, pos, key);
        r := None;
      }
    }

    /**
     * dict_delete, through dict_clear: every chain walked from its head,
     * bucket by bucket, calling each pair's destructor on its value.
     */
    method Delete() returns (calls: seq<Call<V>>)
      requires Valid()
      ensures calls == TableCalls(table[..])
      ensures forall k :: k in contents && !contents[k].del.NoDestructor? ==> Call(contents[k].del, contents[k].value) in calls
      ensures forall c :: c in calls ==> !c.del.NoDestructor? && Entry(c.value, c.del) in contents.Values
    {
      calls := [];
      for i := 0 to maxSize
        invariant calls == TableCalls(table[..i])
      {
        var c := Release(table[i]);
        calls := calls + c;
        assert table[..i + 1][..i] == table[..i];
      }
      assert table[..maxSize] == table[..];
      forall k | k in contents && !contents[k].del.NoDestructor?
        ensures Call(contents[k].del, contents[k].value) in calls
      {
        AllReleased(table[..], contents, pos, k);
      }
      forall c | c in calls
        ensures !c.del.NoDestructor? && Entry(c.value, c.del) in contents.Values
      {
        OnlyReleased(table[..], contents, pos, c);
      }
    }
  }

  /** The walk of dict_set and dict_get along a chain: the first pair holding the key, if any. */
  method Search<V>(chain: seq<Pair<V>>, key: string) returns (r: Option<nat>)
    ensures r.Some? ==> r.value < |chain| && chain[r.value].key == key
    ensures forall m :: 0 <= m < |chain| && (r.None? || m < r.value) ==> chain[m].key != key
  {
    var j := 0;
    while j < |chain|
      invariant j <= |chain|
      invariant forall m :: 0 <= m < j ==> chain[m].key != key
    {
      if chain[j].key == key {
        return Some(j);
      }
      j := j + 1;
    }
    r := None;
  }

  /** The inner loop of dict_clear: a chain walked from its head. */
  method Release<V>(chain: seq<Pair<V>>) returns (calls: seq<Call<V>>)
    ensures calls == ChainCalls(chain)
  {
    calls := [];
    for j := 0 to |chain|
      invariant calls == ChainCalls(chain[..j])
    {
      if !chain[j].entry.del.NoDestructor? {
        calls := calls + [Call(chain[j].entry.del, chain[j].entry.value)];
      }
      assert chain[..j + 1][..j] == chain[..j];
    }
    assert chain[..|chain|] == chain;
  }

  /** hash: the djb2 loop in `size_t`, the shift by five and both additions wrapping. */
  method Hash(key: string) returns (h: nat)
    requires IsCString(key)
    ensures h == Djb2(key)
  {
    h := 5381;
    var i := 0;
    while i < |key|
      invariant i <= |key| && h == Djb2(key[..i])
    {
      var c := key[i] as int;
      var shifted := (h * 32) % SizeModulus;
      WrapStep(h, c);
      h := ((shifted + h) % SizeModulus + c) % SizeModulus;
      assert key[..i + 1][..i] == key[..i];
      i := i + 1;
    }
    assert key[..i] == key;
  }

  /** ((h << 5) + h) + c in `size_t` is 33 * h + c taken modulo 2^64. */
  lemma WrapStep(h: nat, c: int)
    requires h < SizeModulus && 0 <= c
    ensures (((h * 32) % SizeModulus + h) % SizeModulus + c) % SizeModulus == (33 * h + c) % SizeModulus
  {
    var s := (h * 32) % SizeModulus;
    ModShift(s + h, -((s + h) / SizeModulus));
    assert s + h == ((s + h) / SizeModulus) * SizeModulus + (s + h) % SizeModulus;
    ModShift((s + h) % SizeModulus + c, (s + h) / SizeModulus);
    assert h * 32 == ((h * 32) / SizeModulus) * SizeModulus + s;
    ModShift(s + h + c, (h * 32) / SizeModulus);
  }

  /** djb2 of "" is its seed, and of "a" is 5381 * 33 + 97. */
  lemma Djb2Small()
    ensures Djb2("") == 5381 && Djb2("a") == 177670
  {
    assert "a"[..0] == "";
  }

  /** Three distinct keys set in turn give length 3. */
  method AddingScenario(a: string, b: string, c: string) returns (size: nat)
    requires IsKey(a) && IsKey(b) && IsKey(c) && a != b && b != c && a != c
    ensures size == 3
  {
    var d := new Dict<int>(10);
    d.Set(a, 1, Custom(0), true);
    assert b !in d.contents;
    d.Set(b, 10, Custom(1), true);
    assert c !in d.contents;
    d.Set(c, 20, Custom(1), true);
    size := d.Size();
  }

  /** Each of two keys reads back the value set for it. */
  method ReadBackScenario(a: string, b: string) returns (x: Option<int>, y: Option<int>)
    requires IsKey(a) && IsKey(b) && a != b
    ensures x == Some(1) && y == Some(10)
  {
    var d := new Dict<int>(10);
    d.Set(a, 1, Custom(0), true);
    d.Set(b, 10, Custom(1), true);
    x := d.Get(a);
    y := d.Get(b);
  }

  /** Setting a key again replaces its value and keeps length 1; a key never set reads as NULL. */
  method UpdatingScenario(a: string, b: string) returns (first: Option<int>, second: Option<int>, size: nat, missing: Option<int>)
    requires IsKey(a) && IsKey(b) && a != b
    ensures first == Some(10) && second == Some(5) && size == 1 && missing == None
  {
    var d := new Dict<int>(10);
    d.SetRef(a, 10, true);
    first := d.Get(a);
    d.SetRef(a, 5, true);
    second := d.Get(a);
    size := d.Size();
    missing := d.Get(b);
  }

  /** A new key whose pair malloc fails to allocate is not added. */
  method LostScenario(a: string, b: string) returns (size: nat, lost: Option<int>)
    requires IsKey(a) && IsKey(b) && a != b
    ensures size == 1 && lost == None
  {
    var d := new Dict<int>(10);
    d.SetObj(a, 20, true);
    d.SetObj(b, 30, false);
    size := d.Size();
    lost := d.Get(b);
  }

  /** dict_delete frees the value set with dict_setobj and leaves the one set with dict_setref alone. */
  method DeleteScenario(a: string, b: string) returns (calls: seq<Call<int>>)
    requires IsKey(a) && IsKey(b) && a != b
    ensures Call(Free, 20) in calls && forall c :: c in calls ==> c == Call(Free, 20)
  {
    var d := new Dict<int>(10);
    d.SetRef(a, 10, true);
    d.SetObj(b, 20, true);
    calls := d.Delete();
  }
}
