/** Ordered property bags: the own entries of a JavaScript object, in the order
    `Object.entries` yields them for non-integer-like keys. Assigning to an
    existing key keeps its position and replaces its value; assigning to a new
    key appends it; an object literal `{...b, ...c}` assigns c's entries to a
    copy of b from left to right. */
module Bags {
  import opened Wrappers

  type Bag<V> = seq<(string, V)>

  function Keys<V>(b: Bag<V>): (ks: seq<string>)
    ensures |ks| == |b|
  {
    if b == [] then [] else [b[0].0] + Keys(b[1..])
  }

  /** No key occurs twice, as in every JavaScript object. */
  ghost predicate UniqueKeys<V>(b: Bag<V>) {
    forall i, j :: 0 <= i < j < |b| ==> b[i].0 != b[j].0
  }

  /** The value stored under `k` (property read); `None` is `undefined`. */
  function Get<V>(b: Bag<V>, k: string): Option<V>
  {
    if b == [] then None
    else if b[0].0 == k then Some(b[0].1)
    else Get(b[1..], k)
  }

  /** Property assignment `b[k] = v`. */
  function Put<V>(b: Bag<V>, k: string, v: V): Bag<V>
  {
    if b == [] then [(k, v)]
    else if b[0].0 == k then [(k, v)] + b[1..]
    else [b[0]] + Put(b[1..], k, v)
  }

  /** The value the LAST entry for `k` in `c` carries: the one that survives
      when `c` is spread into an object. */
  function GetLast<V>(c: Bag<V>, k: string): Option<V>
  {
    if c == [] then None
    else
      var later := GetLast(c[1..], k);
      if later.Some? then later
      else if c[0].0 == k then Some(c[0].1)
      else None
  }

  /** The object literal `{...b, ...c}`. */
  function Spread<V>(b: Bag<V>, c: Bag<V>): Bag<V>
    decreases |c|
  {
    if c == [] then b
    else Spread(Put(b, c[0].0, c[0].1), c[1..])
  }

  /** The keys of c not in `seen`, each where it first occurs in c: the keys
      `{...b, ...c}` adds after b's own, when `seen` holds b's keys. */
  function FreshKeys<V>(seen: seq<string>, c: Bag<V>): seq<string>
    decreases |c|
  {
    if c == [] then []
    else if c[0].0 in seen then FreshKeys(seen, c[1..])
    else [c[0].0] + FreshKeys(seen + [c[0].0], c[1..])
  }

  lemma {:induction false} KeysAppend<V>(a: Bag<V>, c: Bag<V>)
    ensures Keys(a + c) == Keys(a) + Keys(c)
    decreases |a|
  {
    if a != [] {
      KeysAppend(a[1..], c);
      assert (a + c)[0] == a[0];
      assert (a + c)[1..] == a[1..] + c;
    } else {
      assert a + c == c;
    }
  }

  lemma {:induction false} KeysAt<V>(b: Bag<V>, i: nat)
    requires i < |b|
    ensures Keys(b)[i] == b[i].0
  {
    if i > 0 { KeysAt(b[1..], i - 1); }
  }

  /** A key is present exactly when some entry carries it. */
  lemma {:induction false} GetPresent<V>(b: Bag<V>, k: string)
    ensures Get(b, k).None? <==> forall i :: 0 <= i < |b| ==> b[i].0 != k
    ensures Get(b, k).Some? <==> k in Keys(b)
    ensures Get(b, k).Some? ==> (k, Get(b, k).value) in b
  {
    if b != [] {
      GetPresent(b[1..], k);
      assert Keys(b) == [b[0].0] + Keys(b[1..]);
      if b[0].0 != k {
        forall i | 0 < i < |b| ensures b[i] == b[1..][i - 1] { }
      }
    }
  }

  /** Reading from a concatenation finds the first part's entry first. */
  lemma {:induction false} GetAppend<V>(a: Bag<V>, c: Bag<V>, k: string)
    ensures Get(a + c, k) == if Get(a, k).Some? then Get(a, k) else Get(c, k)
  {
    if a == [] {
      assert a + c == c;
    } else {
      assert (a + c)[0] == a[0] && (a + c)[1..] == a[1..] + c;
      GetAppend(a[1..], c, k);
    }
  }

  /** Assignment keeps every existing key where it was, appends a new key at
      the end, stores `v` under `k` and changes no other key. */
  lemma {:induction false} PutFacts<V>(b: Bag<V>, k: string, v: V)
    ensures Keys(b) <= Keys(Put(b, k, v))
    ensures Get(b, k).Some? ==> Keys(Put(b, k, v)) == Keys(b)
    ensures Get(b, k).None? ==> Put(b, k, v) == b + [(k, v)]
    ensures Get(Put(b, k, v), k) == Some(v)
    ensures forall k' :: k' != k ==> Get(Put(b, k, v), k') == Get(b, k')
  {
    if b != [] && b[0].0 != k {
      PutFacts(b[1..], k, v);
      assert b == [b[0]] + b[1..];
    }
  }

  /** Looking up one key after an assignment. */
  lemma PutGet<V>(b: Bag<V>, k: string, v: V, k': string)
    ensures Get(Put(b, k, v), k') == if k' == k then Some(v) else Get(b, k')
  {
    PutFacts(b, k, v);
  }

  /** Assignment never introduces a duplicate key. */
  lemma PutUnique<V>(b: Bag<V>, k: string, v: V)
    requires UniqueKeys(b)
    ensures UniqueKeys(Put(b, k, v))
  {
    PutFacts(b, k, v);
    GetPresent(b, k);
    var r := Put(b, k, v);
    if Get(b, k).Some? {
      forall i, j | 0 <= i < j < |r| ensures r[i].0 != r[j].0 {
        KeysAt(r, i); KeysAt(r, j); KeysAt(b, i); KeysAt(b, j);
      }
    }
  }

  /** Assignment leaves the key list alone when the key is present and
      appends the key otherwise. */
  lemma PutKeys<V>(b: Bag<V>, k: string, v: V)
    ensures Keys(Put(b, k, v)) == if k in Keys(b) then Keys(b) else Keys(b) + [k]
  {
    PutFacts(b, k, v);
    GetPresent(b, k);
    if k !in Keys(b) {
      KeysAppend(b, [(k, v)]);
      assert Keys([(k, v)]) == [k];
    }
  }

  /** Spreading lists b's keys in their order, then the keys c adds, in
      the order c first gives them. */
  lemma {:induction false} SpreadKeys<V>(b: Bag<V>, c: Bag<V>)
    ensures Keys(Spread(b, c)) == Keys(b) + FreshKeys(Keys(b), c)
    decreases |c|
  {
    if c != [] {
      var k, v := c[0].0, c[0].1;
      assert Spread(b, c) == Spread(Put(b, k, v), c[1..]);
      PutKeys(b, k, v);
      SpreadKeys(Put(b, k, v), c[1..]);
      if k in Keys(b) {
        assert FreshKeys(Keys(b), c) == FreshKeys(Keys(b), c[1..]);
      } else {
        var rest := FreshKeys(Keys(b) + [k], c[1..]);
        assert FreshKeys(Keys(b), c) == [k] + rest;
        assert Keys(b) + [k] + rest == Keys(b) + ([k] + rest);
      }
    }
  }

  /** Spreading keeps b's keys as a prefix in their order and appends the
      keys c adds in the order c first gives them; each key carries c's last
      value for it if c has one, b's value otherwise. */
  lemma {:induction false} SpreadFacts<V>(b: Bag<V>, c: Bag<V>)
    ensures Keys(b) <= Keys(Spread(b, c))
    ensures Keys(Spread(b, c)) == Keys(b) + FreshKeys(Keys(b), c)
    ensures forall k :: Get(Spread(b, c), k) == if GetLast(c, k).Some? then GetLast(c, k) else Get(b, k)
    ensures UniqueKeys(b) ==> UniqueKeys(Spread(b, c))
    decreases |c|
  {
    SpreadKeys(b, c);
    if c != [] {
      var b' := Put(b, c[0].0, c[0].1);
      PutFacts(b, c[0].0, c[0].1);
      SpreadFacts(b', c[1..]);
      if UniqueKeys(b) { PutUnique(b, c[0].0, c[0].1); }
    }
  }

  /** Spreading distinct keys that b does not have appends them in order. */
  lemma {:induction false} SpreadFresh<V>(b: Bag<V>, c: Bag<V>)
    requires UniqueKeys(c)
    requires forall i :: 0 <= i < |c| ==> Get(b, c[i].0).None?
    ensures Spread(b, c) == b + c
    decreases |c|
  {
    if c != [] {
      PutFacts(b, c[0].0, c[0].1);
      var b' := b + [c[0]];
      forall i | 0 <= i < |c[1..]| ensures Get(b', c[1..][i].0).None? {
        GetAppend(b, [c[0]], c[i + 1].0);
      }
      SpreadFresh(b', c[1..]);
      assert b' + c[1..] == b + c;
    }
  }
}
