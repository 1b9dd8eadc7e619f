/** The hash table of src/hash.c: chained buckets and one doubly linked list over all items. */
module HashTables {
  import opened Bytes
  import Words

  /** A string without its zero */
  type Key = seq<Byte>

  const TABLE_MAX := 5381

  // ----- keys -----

  /** Two strings are the same for strcasecmp when they fold to the same. */
  function Fold(k: Key): (f: Key)
    ensures |f| == |k| && forall i :: 0 <= i < |k| ==> f[i] == Lower(k[i])
  {
    seq(|k|, i requires 0 <= i < |k| => Lower(k[i]))
  }

  /** strcasecmp takes two strings for the same when they differ in the forms of letters only. */
  lemma FoldSame(a: Key, b: Key)
    ensures Fold(a) == Fold(b) <==> |a| == |b| && forall i :: 0 <= i < |a| ==> SameLetter(a[i], b[i])
  {
    if |a| == |b| {
      forall i | 0 <= i < |a| ensures Fold(a)[i] == Fold(b)[i] <==> SameLetter(a[i], b[i]) {
        SameLower(a[i], b[i]);
      }
      hide SameLetter;
    }
  }

  /** tolower of a char, which is signed */
  function Letter(b: Byte): int { if b >= 128 then b - 256 else Lower(b) }

  function Step(hash: nat, b: Byte): (h: nat)
    ensures h < 0x1_0000_0000
  {
    (hash * 33 + Letter(b)) % 0x1_0000_0000
  }

  /** The 32 bits of the hash after n characters */
  function Djb(k: Key, n: nat): (h: nat)
    requires n <= |k|
    ensures h < 0x1_0000_0000
  {
    if n == 0 then 5381 else Step(Djb(k, n - 1), k[n - 1])
  }

  /** What the characters add to the hash: each one is multiplied by 33 for every later one. */
  function Weights(k: Key): int {
    if k == [] then 0 else
      (Lower(k[0]) as int - if k[0] < 128 then 0 else 256) * Words.Pow(33, |k| - 1) + Weights(k[1..])
  }

  lemma {:induction false} WeightsNext(k: Key, b: Byte)
    ensures Weights(k + [b]) == 33 * Weights(k) + (Lower(b) as int - if b < 128 then 0 else 256)
  {
    if k == [] {
      assert (k + [b])[1..] == [] && Words.Pow(33, 0) == 1;
    } else {
      WeightsNext(k[1..], b);
      assert (k + [b])[1..] == k[1..] + [b];
      var x: int, p: int := Lower(k[0]) as int - if k[0] < 128 then 0 else 256, Words.Pow(33, |k| - 1);
      PowerNext(|k| - 1);
      WeightsIs(k);
      WeightsIs(k + [b]);
      hide Weights;
      Scaled(x, p, Weights(k[1..]));
    }
  }

  lemma WeightsIs(k: Key)
    requires k != []
    ensures Weights(k)
         == (Lower(k[0]) as int - if k[0] < 128 then 0 else 256) * Words.Pow(33, |k| - 1) + Weights(k[1..])
  {}

  lemma Scaled(x: int, p: int, w: int)
    ensures x * (33 * p) + 33 * w == 33 * (x * p + w)
  {
    assert x * (33 * p) == 33 * (x * p);
  }

  lemma PowerNext(n: nat)
    ensures Words.Pow(33, 0) == 1 && Words.Pow(33, n + 1) == 33 * Words.Pow(33, n)
  {}

  /** The hash of a string, in one sum */
  lemma {:induction false} HashIs(k: Key, n: nat)
    requires n <= |k|
    ensures Djb(k, n) == (5381 * Words.Pow(33, n) + Weights(k[..n])) % 0x1_0000_0000
  {
    if n == 0 {
      assert k[..0] == [] && Words.Pow(33, 0) == 1;
    } else {
      HashIs(k, n - 1);
      assert k[..n] == k[..n - 1] + [k[n - 1]];
      DjbNext(k, n);
      hide *;
      WeightsNext(k[..n - 1], k[n - 1]);
      PowerNext(n - 1);
      var p: int := Words.Pow(33, n - 1);
      Modulo(5381 * p + Weights(k[..n - 1]), Lower(k[n - 1]) as int - if k[n - 1] < 128 then 0 else 256);
    }
  }

  lemma DjbNext(k: Key, n: nat)
    requires 0 < n <= |k|
    ensures Djb(k, n)
         == (Djb(k, n - 1) * 33 + (Lower(k[n - 1]) as int - if k[n - 1] < 128 then 0 else 256)) % 0x1_0000_0000
  {}

  lemma Modulo(x: int, c: int)
    ensures (x % 0x1_0000_0000 * 33 + c) % 0x1_0000_0000 == (33 * x + c) % 0x1_0000_0000
  {
    var q := x / 0x1_0000_0000;
    assert 33 * x + c == x % 0x1_0000_0000 * 33 + c + 0x1_0000_0000 * (33 * q);
    SameRest(x % 0x1_0000_0000 * 33 + c, 33 * q);
  }

  lemma SameRest(x: int, q: int)
    ensures (x + 0x1_0000_0000 * q) % 0x1_0000_0000 == x % 0x1_0000_0000
  {}

  function Bucket(k: Key): (h: nat)
    ensures h < TABLE_MAX - 1
  {
    Djb(k, |k|) % 0x8000_0000 % (TABLE_MAX - 1)
  }

  /** hach_string */
  method HachString(str: Key) returns (hash: nat)
    ensures hash == Bucket(str) < 5380
    ensures hash == (5381 * Words.Pow(33, |str|) + Weights(str)) % 0x1_0000_0000 % 0x8000_0000 % 5380
  {
    HashIs(str, |str|);
    assert str[..|str|] == str;
    hash := 5381;
    var s := 0;
    hide Step;
    while s < |str|
      invariant 0 <= s <= |str| && hash == Djb(str, s)
    {
      hash := Step(hash, str[s]);
      s := s + 1;
    }
    return hash % 0x8000_0000 % (TABLE_MAX - 1);
  }

  lemma {:induction false} SameDjb(a: Key, b: Key, n: nat)
    requires Fold(a) == Fold(b) && n <= |a|
    ensures |a| == |b| && Djb(a, n) == Djb(b, n)
  {
    hide Step;
    if n > 0 {
      SameDjb(a, b, n - 1);
      assert Fold(a)[n - 1] == Fold(b)[n - 1];
      SameStep(Djb(a, n - 1), a[n - 1], b[n - 1]);
    }
  }

  lemma SameStep(h: nat, a: Byte, b: Byte)
    requires Lower(a) == Lower(b)
    ensures Step(h, a) == Step(h, b)
  {
    assert Letter(a) == Letter(b);
  }

  /** Keys that are the same for strcasecmp share a bucket. */
  lemma SameBucket(a: Key, b: Key)
    requires Fold(a) == Fold(b)
    ensures Bucket(a) == Bucket(b)
  {
    SameDjb(a, b, |a|);
  }

  // ----- the lists -----

  class Item {
    const key: Key
    var addrs: nat
    var next: Item?
    var lnext: Item?
    var lprev: Item?

    constructor (key: Key, addrs: nat)
      ensures this.key == key && this.addrs == addrs && next == null && lnext == null && lprev == null
    {
      this.key, this.addrs := key, addrs;
      next, lnext, lprev := null, null, null;
    }
  }

  function At(items: seq<Item>, i: nat): Item? { if i < |items| then items[i] else null }

  /** The first item from i on that is in bucket g */
  ghost function NextIn(items: seq<Item>, i: nat, g: nat): (k: nat)
    requires i <= |items|
    ensures i <= k <= |items| && (k < |items| ==> Bucket(items[k].key) == g)
    ensures forall m :: i <= m < k ==> Bucket(items[m].key) != g
    decreases |items| - i
  {
    if i == |items| || Bucket(items[i].key) == g then i else NextIn(items, i + 1, g)
  }

  lemma NextInIs(items: seq<Item>, i: nat, g: nat, k: nat)
    requires i <= k <= |items| && (k < |items| ==> Bucket(items[k].key) == g)
    requires forall m :: i <= m < k ==> Bucket(items[m].key) != g
    ensures NextIn(items, i, g) == k
  {
    var n := NextIn(items, i, g);
    hide *;
    assert !(n < k) && !(k < n);
  }

  ghost predicate Linked(items: seq<Item>, i: nat)
    requires i < |items|
    reads items[i]
  {
    && items[i].lnext == At(items, i + 1)
    && items[i].lprev == (if i == 0 then null else items[i - 1])
    && items[i].next == At(items, NextIn(items, i + 1, Bucket(items[i].key)))
  }

  /** No two items have keys that are the same for strcasecmp. */
  ghost predicate Distinct(items: seq<Item>) {
    forall i, j :: 0 <= i < j < |items| ==> Fold(items[i].key) != Fold(items[j].key)
  }

  ghost function Keys(items: seq<Item>): set<Key> { set i | 0 <= i < |items| :: Fold(items[i].key) }

  ghost function Where(items: seq<Item>, k: Key): (i: nat)
    requires k in Keys(items)
    ensures i < |items| && Fold(items[i].key) == k
  {
    var i :| 0 <= i < |items| && Fold(items[i].key) == k; i
  }

  lemma WhereIs(items: seq<Item>, i: nat)
    requires Distinct(items) && i < |items|
    ensures Fold(items[i].key) in Keys(items) && Where(items, Fold(items[i].key)) == i
  {
    var j := Where(items, Fold(items[i].key));
    hide *;
    assert !(i < j) && !(j < i);
  }

  lemma PutFirst(items: seq<Item>, n: Item, i: nat, g: nat)
    requires i <= |items|
    ensures NextIn([n] + items, i + 1, g) == NextIn(items, i, g) + 1
  {
    var k := NextIn(items, i, g);
    var all := [n] + items;
    forall m | i + 1 <= m < k + 1 ensures Bucket(all[m].key) != g { assert all[m] == items[m - 1]; }
    NextInIs(all, i + 1, g, k + 1);
  }

  class Table {
    var first: Item?
    const table: array<Item?>
    ghost var items: seq<Item>

    ghost predicate Valid()
      reads this, table, items
    {
      && table.Length == TABLE_MAX + 1 && Distinct(items) && first == At(items, 0)
      && Links() && Heads()
    }

    ghost predicate Links()
      reads this, items
    {
      forall i :: 0 <= i < |items| ==> Linked(items, i)
    }

    ghost predicate Heads()
      reads this, table
    {
      forall h :: 0 <= h < table.Length ==> table[h] == At(items, NextIn(items, 0, h))
    }

    /** The map that the table stands for, from folded keys to addresses */
    ghost function Map(): (m: map<Key, nat>)
      reads this, items
    {
      map k | k in Keys(items) :: items[Where(items, k)].addrs
    }

    /** hashtbl_init */
    constructor ()
      ensures Valid() && items == [] && Map() == map[] && fresh(table)
    {
      first, items := null, [];
      table := new Item?[TABLE_MAX + 1](_ => null);
    }

    /** The walk along a bucket: no item before index k has the key. */
    ghost predicate Searching(key: Key, p: Item?, k: nat)
      reads this, items
    {
      && k <= |items| && p == At(items, k) && (p != null ==> Bucket(p.key) == Bucket(key))
      && forall m :: 0 <= m < k ==> Fold(items[m].key) != Fold(key)
    }

    lemma SearchFirst(key: Key)
      requires Valid()
      ensures Searching(key, table[Bucket(key)], NextIn(items, 0, Bucket(key)))
    {
      SearchFrom(key, 0);
    }

    lemma SearchFrom(key: Key, i: nat)
      requires i <= |items| && forall m :: 0 <= m < i ==> Fold(items[m].key) != Fold(key)
      ensures forall m :: 0 <= m < NextIn(items, i, Bucket(key)) ==> Fold(items[m].key) != Fold(key)
    {
      forall m | i <= m < NextIn(items, i, Bucket(key)) ensures Fold(items[m].key) != Fold(key) {
        if Fold(items[m].key) == Fold(key) {
          SameBucket(items[m].key, key);
        }
      }
    }

    lemma SearchNext(key: Key, p: Item, k: nat)
      requires Valid() && Searching(key, p, k) && Fold(p.key) != Fold(key)
      ensures k < |items| && k + 1 <= NextIn(items, k + 1, Bucket(key))
      ensures Searching(key, p.next, NextIn(items, k + 1, Bucket(key)))
    {
      assert Linked(items, k);
      SearchFrom(key, k + 1);
    }

    lemma SearchEnds(key: Key, p: Item?, k: nat)
      requires Valid() && Searching(key, p, k) && (p != null ==> Fold(p.key) == Fold(key))
      ensures Fold(key) in Map() <==> p != null
      ensures p != null ==> k < |items| && items[k] == p && Where(items, Fold(key)) == k && Map()[Fold(key)] == p.addrs
    {
      if p != null {
        WhereIs(items, k);
      }
    }

    lemma TableLength()
      requires Valid()
      ensures table.Length == TABLE_MAX + 1
    {}

    /** A walk along the bucket of a key */
    method Find(key: Key) returns (p: Item?, ghost k: nat)
      requires Valid()
      ensures Searching(key, p, k) && (p != null ==> Fold(p.key) == Fold(key))
    {
      hide *;
      var h := HachString(key);
      k := NextIn(items, 0, Bucket(key));
      SearchFirst(key);
      TableLength();
      p := table[h];
      while p != null && Fold(p.key) != Fold(key)
        invariant k <= |items| && Searching(key, p, k)
        decreases |items| - k
      {
        SearchNext(key, p, k);
        p := p.next;
        k := NextIn(items, k + 1, Bucket(key));
      }
    }

    /** hDbl->addrs = structaddr */
    method Replace(p: Item, addrs: nat, ghost k: nat)
      requires Valid() && k < |items| && items[k] == p
      modifies p`addrs
      ensures Valid() && Map() == old(Map())[Fold(p.key) := addrs]
    {
      p.addrs := addrs;
      forall i | 0 <= i < |items| ensures Linked(items, i) { assert old(Linked(items, i)); }
      WhereIs(items, k);
      forall key | key in Keys(items) && key != Fold(p.key) ensures items[Where(items, key)] != p {
        assert Where(items, key) != k;
      }
    }

    /** hashtbl_seek */
    method Seek(key: Key) returns (addrs: nat)
      requires Valid()
      ensures addrs == if Fold(key) in Map() then Map()[Fold(key)] else 0
    {
      var p, k := Find(key);
      SearchEnds(key, p, k);
      hide *;
      if p != null {
        return p.addrs;
      }
      return 0;
    }

    /** An item whose link back is the only one that may have changed */
    twostate predicate OnlyFirstBack(item: Item, back: Item?)
      reads item
    {
      && item.next == old(item.next) && item.lnext == old(item.lnext) && item.addrs == old(item.addrs)
      && item.lprev == back
    }

    twostate lemma PrependedLinks(n: Item)
      requires old(Links()) && items == [n] + old(items)
      requires n.lnext == old(At(items, 0)) && n.lprev == null
      requires n.next == old(At(items, NextIn(items, 0, Bucket(n.key))))
      requires forall i :: 0 <= i < |old(items)| ==>
                OnlyFirstBack(old(items)[i], if i == 0 then n else old(items[i].lprev))
      ensures Links()
    {
      hide OnlyFirstBack;
      hide Linked;
      forall i | 0 <= i < |items| ensures Linked(items, i) {
        if i == 0 {
          PrependedFirst(n);
        } else {
          assert OnlyFirstBack(old(items)[i - 1], if i - 1 == 0 then n else old(items[i - 1].lprev));
          assert old(Linked(items, i - 1));
          PrependedNext(n, i);
        }
      }
    }

    twostate lemma PrependedFirst(n: Item)
      requires items == [n] + old(items) && n.lnext == old(At(items, 0)) && n.lprev == null
      requires n.next == old(At(items, NextIn(items, 0, Bucket(n.key))))
      ensures Linked(items, 0)
    {
      PutFirst(old(items), n, 0, Bucket(n.key));
    }

    twostate lemma PrependedNext(n: Item, new i: nat)
      requires items == [n] + old(items) && 0 < i < |items| && old(Linked(items, i - 1))
      requires OnlyFirstBack(old(items)[i - 1], if i == 1 then n else old(items[i - 1].lprev))
      ensures Linked(items, i)
    {
      PutFirst(old(items), n, i, Bucket(items[i].key));
      assert items[i] == old(items)[i - 1];
    }

    lemma PrependedKeys(was: seq<Item>, n: Item)
      requires Distinct(was) && Fold(n.key) !in Keys(was)
      ensures Distinct([n] + was) && Keys([n] + was) == Keys(was) + {Fold(n.key)}
      ensures Where([n] + was, Fold(n.key)) == 0
      ensures forall k :: k in Keys(was) ==> Where([n] + was, k) == Where(was, k) + 1
    {
      var all := [n] + was;
      assert all[0] == n && forall i :: 1 <= i < |all| ==> all[i] == was[i - 1];
      assert forall i :: 0 <= i < |was| ==> all[i + 1] == was[i];
      assert Distinct(all);
      assert Keys(all) == Keys(was) + {Fold(n.key)} by {
        forall k | k in Keys(was) ensures k in Keys(all) {
          var i :| 0 <= i < |was| && Fold(was[i].key) == k;
          assert Fold(all[i + 1].key) == k;
        }
      }
      WhereIs(all, 0);
      forall k | k in Keys(was) ensures Where(all, k) == Where(was, k) + 1 {
        WhereIs(all, Where(was, k) + 1);
      }
    }

    /** The writes at the end of hashtbl_append */
    method Attach(n: Item, h: nat)
      requires first == At(items, 0) && n !in items && h < table.Length
      requires forall i, j :: 0 <= i < j < |items| ==> items[i] != items[j]
      modifies this, table, items
      ensures first == n && items == [n] + old(items) && unchanged(n)
      ensures forall g :: 0 <= g < table.Length ==> table[g] == if g == h then n else old(table[g])
      ensures forall i :: 0 <= i < |old(items)| ==>
                OnlyFirstBack(old(items)[i], if i == 0 then n else old(items[i].lprev))
    {
      if first != null {
        first.lprev := n;
      }
      first := n;
      table[h] := n;
      items := [n] + items;
    }

    lemma Objects()
      requires Valid()
      ensures forall i, j :: 0 <= i < j < |items| ==> items[i] != items[j]
    {}

    /** The end of hashtbl_append: the new item becomes the first one of its bucket and of the whole list. */
    method Prepend(n: Item, h: nat)
      requires Valid() && n !in items && h == Bucket(n.key) && Fold(n.key) !in Map()
      requires n.lnext == first && n.lprev == null && n.next == null
      modifies this, table, items, n
      ensures Valid() && items == [n] + old(items) && Map() == old(Map())[Fold(n.key) := old(n.addrs)]
    {
      ghost var was := items;
      PrependedKeys(items, n);
      Objects();
      if table[h] != null {
        n.next := table[h];
      }
      Attach(n, h);
      hide OnlyFirstBack;
      hide Linked;
      hide Distinct;
      hide Keys;
      PrependedLinks(n);
      PrependedTable(was, n);
      PrependedMap(n);
    }

    lemma PrependedTable(was: seq<Item>, n: Item)
      ensures forall g :: NextIn([n] + was, 0, g) == if Bucket(n.key) == g then 0 else NextIn(was, 0, g) + 1
    {
      forall g: nat ensures NextIn([n] + was, 0, g) == if Bucket(n.key) == g then 0 else NextIn(was, 0, g) + 1 {
        PutFirst(was, n, 0, g);
        NextFirst([n] + was, g);
      }
    }

    twostate lemma PrependedMap(n: Item)
      requires items == [n] + old(items) && Fold(n.key) !in Keys(old(items))
      requires Keys(items) == Keys(old(items)) + {Fold(n.key)}
      requires Where(items, Fold(n.key)) == 0
      requires forall k :: k in Keys(old(items)) ==> Where(items, k) == Where(old(items), k) + 1
      requires forall i :: 0 <= i < |old(items)| ==>
                OnlyFirstBack(old(items)[i], if i == 0 then n else old(items[i].lprev))
      ensures Map() == old(Map())[Fold(n.key) := n.addrs]
    {
      forall k | k in Keys(old(items)) ensures items[Where(items, k)].addrs == old(items[Where(items, k)].addrs) {
        var i := Where(old(items), k);
        assert items[i + 1] == old(items)[i];
        assert OnlyFirstBack(old(items)[i], if i == 0 then n else old(items[i].lprev));
      }
    }

    lemma NextFirst(items: seq<Item>, g: nat)
      requires items != []
      ensures NextIn(items, 0, g) == if Bucket(items[0].key) == g then 0 else NextIn(items, 1, g)
    {}

    /** The item that hashtbl_append makes */
    method NewItem(key: Key, structaddr: nat) returns (n: Item)
      requires Valid()
      ensures Valid() && Map() == old(Map()) && fresh(n) && n !in items
      ensures n.key == key && n.addrs == structaddr && n.lnext == first && n.lprev == null && n.next == null
    {
      n := new Item(key, structaddr);
      n.lnext := first;
    }

    /** hashtbl_append: the value of the key is set; a new key becomes the first item of the list. */
    method Append(key: Key, structaddr: nat)
      requires Valid()
      modifies this, table, items
      ensures Valid() && Map() == old(Map())[Fold(key) := structaddr]
      ensures if Fold(key) in old(Map()) then items == old(items)
              else |items| == |old(items)| + 1 && items[1..] == old(items) && fresh(items[0]) && items[0].key == key
    {
      hide *;
      var h := HachString(key);
      var n := NewItem(key, structaddr);
      var p, k := Find(key);
      SearchEnds(key, p, k);
      if p != null {
        Replace(p, structaddr, k);
      } else {
        Prepend(n, h);
      }
    }

    // ----- erasing -----

    /** The walk of hashtbl_erase */
    method FindWithPrev(key: Key) returns (h: nat, prev: Item?, p: Item?, ghost from: nat, ghost k: nat)
      requires Valid()
      ensures h == Bucket(key) < TABLE_MAX && Searching(key, p, k) && (p != null ==> Fold(p.key) == Fold(key))
      ensures Behind(items, key, prev, from, k)
    {
      hide Valid;
      hide NextIn;
      h := HachString(key);
      from, k := 0, NextIn(items, 0, Bucket(key));
      SearchFirst(key);
      TableLength();
      prev, p := null, table[h];
      while p != null && Fold(p.key) != Fold(key)
        invariant Searching(key, p, k) && Behind(items, key, prev, from, k)
        decreases |items| - k
      {
        SearchNext(key, p, k);
        prev := p;
        p := p.next;
        from, k := k + 1, NextIn(items, k + 1, Bucket(key));
      }
    }

    twostate predicate Relinked(item: Item, next: Item?, lnext: Item?, lprev: Item?)
      reads item
    {
      item.next == next && item.lnext == lnext && item.lprev == lprev && item.addrs == old(item.addrs)
    }

    /** What the writes of hashtbl_erase do to the links */
    twostate predicate Unlinked(was: seq<Item>, p: Item, new from: nat, new k: nat)
      requires k < |was|
      reads was
    {
      forall i :: 0 <= i < |was| && i != k ==>
        Relinked(was[i], if i + 1 == from then old(p.next) else old(was[i].next),
                 if i + 1 == k then old(p.lnext) else old(was[i].lnext),
                 if i == k + 1 then old(p.lprev) else old(was[i].lprev))
    }

    /** The writes of hashtbl_erase */
    method Detach(p: Item, prev: Item?, h: nat, ghost from: nat, ghost k: nat)
      requires k < |items| && from <= k && items[k] == p && prev == (if from == 0 then null else items[from - 1])
      requires h < table.Length && first == At(items, 0)
      requires p.lnext == At(items, k + 1) && p.lprev == if k == 0 then null else items[k - 1]
      requires forall i, j :: 0 <= i < j < |items| ==> items[i] != items[j]
      modifies this, table, items
      ensures items == Without(old(items), k) && first == At(items, 0)
      ensures forall g :: 0 <= g < table.Length ==>
                table[g] == if g == h && from == 0 then old(p.next) else old(table[g])
      ensures Unlinked(old(items), p, from, k)
    {
      if prev != null {
        prev.next := p.next;
      } else {
        table[h] := p.next;
      }
      if p.lprev == null {
        first := p.lnext;
      } else {
        p.lprev.lnext := p.lnext;
      }
      if p.lnext != null {
        p.lnext.lprev := p.lprev;
      }
      items := items[..k] + items[k + 1..];
    }

    twostate lemma DetachedLink(new key: Key, new prev: Item?, p: Item, new from: nat, new k: nat, new j: nat)
      requires Behind(old(items), key, prev, from, k) && k < |old(items)| && old(items)[k] == p
      requires items == Without(old(items), k) && j < |old(items)| && j != k
      requires old(Linked(items, j)) && old(Linked(items, k)) && Unlinked(old(items), p, from, k)
      ensures Linked(items, Shift(k, j))
    {
      var was := old(items);
      assert Relinked(was[j], if j + 1 == from then old(p.next) else old(was[j].next),
                      if j + 1 == k then old(p.lnext) else old(was[j].lnext),
                      if j == k + 1 then old(p.lprev) else old(was[j].lprev));
      NewNext(was, key, prev, from, k, j);
      NewNeighbours(was, k, j);
      hide NextIn;
      hide Without;
      hide Behind;
      hide Unlinked;
      hide Bucket;
    }

    twostate lemma DetachedTable(new key: Key, new prev: Item?, p: Item, new from: nat, new k: nat)
      requires Behind(old(items), key, prev, from, k) && k < |old(items)| && old(items)[k] == p
      requires items == Without(old(items), k) && old(Linked(items, k))
      requires old(Heads())
      requires forall g :: 0 <= g < table.Length ==>
                 table[g] == if g == Bucket(key) && from == 0 then old(p.next) else old(table[g])
      ensures Heads()
    {
      hide Without;
      forall g | 0 <= g < table.Length ensures table[g] == At(items, NextIn(items, 0, g)) {
        TakeOut(old(items), k, 0, 0, g);
        HeadBehind(old(items), key, prev, from, k, g);
      }
    }

    twostate lemma DetachedMap(p: Item, new from: nat, new k: nat)
      requires k < |old(items)| && old(items)[k] == p && Distinct(old(items)) && items == Without(old(items), k)
      requires Unlinked(old(items), p, from, k)
      ensures Distinct(items) && Map() == old(Map()) - {Fold(p.key)}
    {
      var was := old(items);
      WithoutDistinct(was, k);
      WithoutKeys(was, k);
      forall key | key in Keys(items) ensures items[Where(items, key)].addrs == old(items[Where(items, key)].addrs) {
        var i := Where(items, key);
        ItemLeft(was, k, i);
        SameAddress(p, from, k, Back(k, i));
        WhereIs(was, Back(k, i));
      }
    }

    twostate lemma SameAddress(p: Item, new from: nat, new k: nat, new j: nat)
      requires k < |old(items)| && j < |old(items)| && j != k && Unlinked(old(items), p, from, k)
      ensures old(items)[j].addrs == old(items[j].addrs)
    {
      assert Relinked(old(items)[j], if j + 1 == from then old(p.next) else old(items[j].next),
                      if j + 1 == k then old(p.lnext) else old(items[j].lnext),
                      if j == k + 1 then old(p.lprev) else old(items[j].lprev));
    }

    twostate lemma DetachedAll(new key: Key, new prev: Item?, p: Item, new from: nat, new k: nat)
      requires Behind(old(items), key, prev, from, k) && k < |old(items)| && old(items)[k] == p
      requires items == Without(old(items), k) && old(Links()) && Unlinked(old(items), p, from, k)
      ensures Links()
    {
      assert old(Linked(items, k));
      hide Without;
      hide Linked;
      hide Behind;
      hide Unlinked;
      forall i | 0 <= i < |items| ensures Linked(items, i) {
        ItemLeft(old(items), k, i);
        assert old(Linked(items, Back(k, i)));
        DetachedLink(key, prev, p, from, k, Back(k, i));
      }
    }

    lemma LinkedAt(k: nat)
      requires Valid() && k < |items|
      ensures Linked(items, k) && items[k].lnext == At(items, k + 1)
      ensures items[k].lprev == if k == 0 then null else items[k - 1]
    {}

    lemma Parts()
      requires Valid()
      ensures Links() && Heads() && Distinct(items) && first == At(items, 0) && table.Length == TABLE_MAX + 1
    {}

    lemma BehindIs(key: Key, prev: Item?, from: nat, k: nat)
      requires Behind(items, key, prev, from, k)
      ensures from <= k <= |items| && prev == if from == 0 then null else items[from - 1]
    {}

    lemma Whole()
      requires Links() && Heads() && Distinct(items) && first == At(items, 0) && table.Length == TABLE_MAX + 1
      ensures Valid()
    {}

    /** The removal of hashtbl_erase, once the item and the one before it in the bucket are known */
    method Remove(key: Key, h: nat, p: Item, prev: Item?, ghost from: nat, ghost k: nat)
      requires Valid() && h == Bucket(key) < TABLE_MAX && Behind(items, key, prev, from, k)
      requires k < |items| && items[k] == p && Fold(p.key) == Fold(key)
      modifies this, table, items
      ensures Valid() && Map() == old(Map()) - {Fold(key)} && items == Without(old(items), k)
    {
      hide *;
      Objects();
      LinkedAt(k);
      Parts();
      BehindIs(key, prev, from, k);
      Detach(p, prev, h, from, k);
      DetachedAll(key, prev, p, from, k);
      DetachedTable(key, prev, p, from, k);
      DetachedMap(p, from, k);
      Whole();
    }

    /** hashtbl_erase: the key and its address are gone, and no other item has moved or changed. */
    method Erase(key: Key)
      requires Valid()
      modifies this, table, items
      ensures Valid() && Map() == old(Map()) - {Fold(key)}
      ensures if Fold(key) in old(Map()) then items == Without(old(items), Where(old(items), Fold(key)))
              else items == old(items)
    {
      hide *;
      var h, prev, p, from, k := FindWithPrev(key);
      SearchEnds(key, p, k);
      if p != null {
        Remove(key, h, p, prev, from, k);
      }
    }
  }

  /** The list without the item at k */
  ghost function Without(items: seq<Item>, k: nat): (r: seq<Item>)
    requires k < |items|
    ensures |r| == |items| - 1
  {
    items[..k] + items[k + 1..]
  }

  /** Where the item at j is then, and where the item was that is at i then */
  ghost function Shift(k: nat, j: nat): nat
    requires j != k
  {
    if j < k then j else j - 1
  }

  ghost function Back(k: nat, i: nat): nat { if i < k then i else i + 1 }

  lemma ItemLeft(items: seq<Item>, k: nat, i: nat)
    requires k < |items| && i + 1 < |items|
    ensures Without(items, k)[i] == items[Back(k, i)] && Back(k, i) != k && Shift(k, Back(k, i)) == i
  {}

  lemma NewNeighbours(items: seq<Item>, k: nat, j: nat)
    requires k < |items| && j < |items| && j != k
    ensures var all, i := Without(items, k), Shift(k, j);
            && i < |all| && all[i] == items[j]
            && At(all, i + 1) == (if j + 1 == k then At(items, k + 1) else At(items, j + 1))
            && (i > 0 ==> all[i - 1] == if j == k + 1 then items[k - 1] else items[j - 1])
            && (i == 0 <==> j == 0 || (j == 1 && k == 0))
  {
    var i := Shift(k, j);
    ItemLeft(items, k, i);
    if i + 2 < |items| {
      ItemLeft(items, k, i + 1);
    }
    if i > 0 {
      ItemLeft(items, k, i - 1);
    }
    hide Without;
  }

  /** What is next in the bucket of an item that stays */
  lemma NewNext(items: seq<Item>, key: Key, prev: Item?, from: nat, k: nat, j: nat)
    requires Behind(items, key, prev, from, k) && k < |items| && j < |items| && j != k
    ensures var all, g := Without(items, k), Bucket(items[j].key);
            Shift(k, j) + 1 <= |all|
            && At(all, NextIn(all, Shift(k, j) + 1, g))
               == if j + 1 == from then At(items, NextIn(items, k + 1, Bucket(items[k].key)))
                  else At(items, NextIn(items, j + 1, g))
  {
    SameNext(items, key, prev, from, k, j);
    TakeOut(items, k, j + 1, Shift(k, j) + 1, Bucket(items[j].key));
    hide *;
  }

  lemma WithoutDistinct(items: seq<Item>, k: nat)
    requires Distinct(items) && k < |items|
    ensures Distinct(Without(items, k))
  {
    var all := Without(items, k);
    hide Without;
    hide Fold;
    forall i, j | 0 <= i < j < |all| ensures Fold(all[i].key) != Fold(all[j].key) {
      ItemLeft(items, k, i);
      ItemLeft(items, k, j);
    }
  }

  lemma WithoutKeys(items: seq<Item>, k: nat)
    requires Distinct(items) && k < |items|
    ensures Keys(Without(items, k)) == Keys(items) - {Fold(items[k].key)}
  {
    var all := Without(items, k);
    hide Without;
    hide Fold;
    forall key | key in Keys(all) ensures key in Keys(items) && key != Fold(items[k].key) {
      var i :| 0 <= i < |all| && Fold(all[i].key) == key;
      ItemLeft(items, k, i);
      WhereIs(items, k);
      WhereIs(items, Back(k, i));
    }
    forall key | key in Keys(items) && key != Fold(items[k].key) ensures key in Keys(all) {
      var j :| 0 <= j < |items| && Fold(items[j].key) == key;
      ItemLeft(items, k, Shift(k, j));
    }
  }

  /** The item before k in the bucket of the key */
  ghost predicate Behind(items: seq<Item>, key: Key, prev: Item?, from: nat, k: nat) {
    && from <= k <= |items| && k == NextIn(items, from, Bucket(key))
    && prev == (if from == 0 then null else items[from - 1])
    && (prev != null ==> Bucket(prev.key) == Bucket(key))
  }

  /** Only the item before k has k for its next. */
  lemma SameNext(items: seq<Item>, key: Key, prev: Item?, from: nat, k: nat, i: nat)
    requires Behind(items, key, prev, from, k) && k < |items| && i < |items| && i != k
    ensures NextIn(items, i + 1, Bucket(items[i].key)) == k <==> i + 1 == from
    ensures i + 1 == from ==> Bucket(items[i].key) == Bucket(items[k].key)
  {
    assert from > 0 ==> Bucket(items[from - 1].key) == Bucket(key) == Bucket(items[k].key);
    hide Bucket;
  }

  lemma HeadBehind(items: seq<Item>, key: Key, prev: Item?, from: nat, k: nat, g: nat)
    requires Behind(items, key, prev, from, k) && k < |items|
    ensures NextIn(items, 0, g) == k <==> from == 0 && g == Bucket(key)
    ensures Bucket(items[k].key) == Bucket(key)
  {
    assert from > 0 ==> Bucket(items[from - 1].key) == Bucket(key) == Bucket(items[k].key);
    hide Bucket;
  }

  /** What comes next in a bucket after an item has been taken out */
  lemma TakeOut(items: seq<Item>, k: nat, i: nat, j: nat, g: nat)
    requires k < |items| && i <= |items| && j == if i <= k then i else i - 1
    ensures var n := NextIn(items, i, g);
            At(Without(items, k), NextIn(Without(items, k), j, g))
            == At(items, if n == k then NextIn(items, k + 1, g) else n)
  {
    var n := NextIn(items, i, g);
    if n < k {
      TakeOutLater(items, k, i, g);
      TakeOutAt(items, k, n);
    } else if n > k {
      TakeOutEarlier(items, k, i, j, g);
      TakeOutAt(items, k, n - 1);
    } else {
      TakeOutSame(items, k, i, g);
      TakeOutAt(items, k, NextIn(items, k + 1, g) - 1);
    }
    hide NextIn;
    hide Without;
    hide Bucket;
  }

  lemma TakeOutLater(items: seq<Item>, k: nat, i: nat, g: nat)
    requires k < |items| && i <= k && NextIn(items, i, g) < k
    ensures NextIn(Without(items, k), i, g) == NextIn(items, i, g)
  {
    hide Bucket;
    TakeOutIs(items, k, i, g, NextIn(items, i, g));
  }

  lemma TakeOutEarlier(items: seq<Item>, k: nat, i: nat, j: nat, g: nat)
    requires k < |items| && i <= |items| && NextIn(items, i, g) > k && j == if i <= k then i else i - 1
    ensures NextIn(Without(items, k), j, g) == NextIn(items, i, g) - 1
  {
    hide Bucket;
    TakeOutIs(items, k, j, g, NextIn(items, i, g) - 1);
  }

  lemma TakeOutSame(items: seq<Item>, k: nat, i: nat, g: nat)
    requires k < |items| && i <= k && NextIn(items, i, g) == k
    ensures NextIn(Without(items, k), i, g) == NextIn(items, k + 1, g) - 1
  {
    hide Bucket;
    TakeOutIs(items, k, i, g, NextIn(items, k + 1, g) - 1);
  }

  lemma TakeOutAt(items: seq<Item>, k: nat, n: nat)
    requires k < |items| && n < |items|
    ensures At(Without(items, k), n) == At(items, Back(k, n))
  {
    if n + 1 < |items| {
      ItemLeft(items, k, n);
    }
    hide Without;
  }

  /** The next item in the shorter list, seen in the longer one */
  lemma TakeOutIs(items: seq<Item>, k: nat, i: nat, g: nat, n: nat)
    requires k < |items| && i <= n < |items| && (n + 1 < |items| ==> Bucket(items[Back(k, n)].key) == g)
    requires forall m :: i <= m < n ==> Bucket(items[Back(k, m)].key) != g
    ensures NextIn(Without(items, k), i, g) == n
  {
    var all := Without(items, k);
    hide Without;
    hide Bucket;
    if n < |all| {
      ItemLeft(items, k, n);
    }
    forall m | i <= m < n ensures Bucket(all[m].key) != g {
      ItemLeft(items, k, m);
      assert Bucket(items[Back(k, m)].key) != g;
    }
    NextInIs(all, i, g, n);
  }
}
