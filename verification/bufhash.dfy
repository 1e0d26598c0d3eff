/** The hash table that finds the frame of a page: an array of linked lists of buckets. */
module BufferHash {
  import opened Bytes
  import opened FileLayer

  class HashBucket {
    const key: Key
    const frameNo: int
    var next: HashBucket?

    constructor (k: Key, frame: int, tail: HashBucket?)
      ensures key == k && frameNo == frame && next == tail
    {
      key, frameNo, next := k, frame, tail;
    }
  }

  /** The bucket list starting at head holds exactly the buckets of the sequence. */
  ghost predicate Linked(head: HashBucket?, c: seq<HashBucket>)
    reads c
  {
    && head == (if c == [] then null else c[0])
    && forall j :: 0 <= j < |c| ==> NextIs(c, j)
  }

  ghost predicate NextIs(c: seq<HashBucket>, j: nat)
    requires j < |c|
    reads c[j]
  {
    c[j].next == if j + 1 < |c| then c[j + 1] else null
  }

  predicate NoDuplicates(c: seq<HashBucket>) {
    forall i, j :: 0 <= i < j < |c| ==> c[i].key != c[j].key
  }

  predicate Listed(c: seq<HashBucket>, k: Key) {
    exists j :: 0 <= j < |c| && c[j].key == k
  }

  lemma LinkedInFront(b: HashBucket, c: seq<HashBucket>)
    requires Linked(b.next, c)
    ensures Linked(b, [b] + c)
  {
    forall j | 0 <= j < |[b] + c|
      ensures NextIs([b] + c, j)
    {
      assert j > 0 ==> NextIs(c, j - 1);
    }
  }

  /** Unlinking bucket j makes its predecessor point past it. */
  lemma Unlinked(head: HashBucket?, c: seq<HashBucket>, j: nat)
    requires j < |c| && NoDuplicates(c)
    requires forall i :: 0 <= i < |c| && i != j - 1 ==> NextIs(c, i)
    requires j > 0 ==> head == c[0] && c[j - 1].next == c[j].next
    requires j == 0 ==> head == c[0].next
    ensures Linked(head, c[..j] + c[j + 1..]) && NoDuplicates(c[..j] + c[j + 1..])
  {
    var d := c[..j] + c[j + 1..];
    assert NextIs(c, j);
    forall i | 0 <= i < |d|
      ensures NextIs(d, i)
    {
      assert i != j - 1 ==> NextIs(c, if i < j then i else i + 1);
    }
  }

  class BufHashTbl {
    const ht: array<HashBucket?>
    ghost var chains: seq<seq<HashBucket>>
    ghost var table: map<Key, int>
    ghost var Repr: set<HashBucket>

    /** The address of the File object and the page number, added as unsigned 32-bit integers. */
    function Hash(k: Key): (i: nat)
      requires ht.Length > 0
      ensures i < ht.Length
    {
      ((k.file + k.pageNo) % 0x1_0000_0000) % ht.Length
    }

    /** Every bucket of list i belongs there and is in the table. */
    ghost predicate FiledIn(c: seq<HashBucket>, i: nat, t: map<Key, int>)
      reads this`Repr
    {
      forall j :: 0 <= j < |c| ==>
        c[j] in Repr && ht.Length > 0 && Hash(c[j].key) == i && c[j].key in t && t[c[j].key] == c[j].frameNo
    }

    ghost predicate ChainOk(i: nat)
      requires i < |chains| == ht.Length
      reads this, ht, Repr
    {
      FiledIn(chains[i], i, table) && NoDuplicates(chains[i]) && Linked(ht[i], chains[i])
    }

    ghost predicate Valid()
      reads this, ht, Repr
    {
      && ht.Length > 0 && |chains| == ht.Length
      && (forall i :: 0 <= i < |chains| ==> ChainOk(i))
      && (forall k :: k in table ==> Listed(chains[Hash(k)], k))
    }

    constructor (htSize: nat)
      requires htSize > 0
      ensures Valid() && fresh(this) && fresh(ht) && fresh(Repr) && table == map[]
    {
      ht := new HashBucket?[htSize](i => null);
      chains, table, Repr := seq(htSize, i => []), map[], {};
    }

    method Lookup(k: Key) returns (status: Status, frameNo: int)
      requires Valid()
      ensures status == if k in table then OK else HASHNOTFOUND
      ensures k in table ==> frameNo == table[k]
    {
      var index := Hash(k);
      hide Hash, Linked;
      ghost var c, j := chains[index], 0;
      assert ChainOk(index);
      var tmpBuc := FirstOf(index);
      while tmpBuc != null
        invariant j <= |c| && tmpBuc == (if j < |c| then c[j] else null)
        invariant forall m :: 0 <= m < j ==> c[m].key != k
        decreases |c| - j
      {
        if tmpBuc.key == k {
          return OK, tmpBuc.frameNo;
        }
        NextOf(index, j);
        tmpBuc := tmpBuc.next;
        j := j + 1;
      }
      return HASHNOTFOUND, -1;
    }

    method FirstOf(i: nat) returns (b: HashBucket?)
      requires Valid() && i < ht.Length
      ensures b == if chains[i] == [] then null else chains[i][0]
    {
      assert ChainOk(i);
      b := ht[i];
    }

    lemma NextOf(i: nat, j: nat)
      requires Valid() && i < ht.Length && j < |chains[i]|
      ensures chains[i][j].next == if j + 1 < |chains[i]| then chains[i][j + 1] else null
    {
      assert ChainOk(i) && NextIs(chains[i], j);
    }

    /** A bucket put in front of list i leaves every list in order. */
    lemma FrontOk(i: nat, b: HashBucket, cs: seq<seq<HashBucket>>, t: map<Key, int>)
      requires i < |cs| == |chains| == ht.Length && Hash(b.key) == i && b.key !in t
      requires chains == cs[i := [b] + cs[i]] && table == t[b.key := b.frameNo] && b in Repr
      requires forall a :: 0 <= a < |cs| ==> FiledIn(cs[a], a, t) && NoDuplicates(cs[a])
      requires forall a :: 0 <= a < |cs| && a != i ==> Linked(ht[a], cs[a])
      requires ht[i] == b && Linked(b.next, cs[i])
      requires forall k :: k in t ==> Listed(cs[Hash(k)], k)
      ensures (forall a :: 0 <= a < |chains| ==> ChainOk(a)) && forall k :: k in table ==> Listed(chains[Hash(k)], k)
    {
      hide Hash, Linked, Listed;
      LinkedInFront(b, cs[i]);
      hide NextIs;
      forall k | k in table
        ensures Listed(chains[Hash(k)], k)
      {
        assert k != b.key ==> Listed(cs[Hash(k)], k);
        if Hash(k) == i {
          ListedInFront(b, cs[i], k);
        }
      }
      forall a | 0 <= a < |chains|
        ensures ChainOk(a)
      {
        assert FiledIn(cs[a], a, t);
      }
    }

    method Insert(k: Key, frameNo: int) returns (status: Status)
      requires Valid()
      modifies this, ht
      ensures Valid() && fresh(Repr - old(Repr))
      ensures status == if k in old(table) then HASHTBLERROR else OK
      ensures table == if status == OK then old(table)[k := frameNo] else old(table)
    {
      hide Hash, Linked, Listed, NextIs;
      var s, f := Lookup(k);
      if s == OK {
        return HASHTBLERROR;
      }
      var index := Hash(k);
      ghost var cs, t := chains, table;
      AllChains(cs, t);
      var b := new HashBucket(k, frameNo, ht[index]);
      ht[index] := b;
      chains, table, Repr := cs[index := [b] + cs[index]], table[k := frameNo], Repr + {b};
      FrontOk(index, b, cs, t);
      status := OK;
    }

    /** List i without its bucket j: every list is in order. */
    lemma WithoutOk(i: nat, j: nat, cs: seq<seq<HashBucket>>, t: map<Key, int>)
      requires i < |cs| == |chains| == ht.Length && j < |cs[i]|
      requires chains == cs[i := cs[i][..j] + cs[i][j + 1..]] && table == t - {cs[i][j].key}
      requires forall a :: 0 <= a < |cs| ==> FiledIn(cs[a], a, t) && NoDuplicates(cs[a])
      requires forall a :: 0 <= a < |cs| && a != i ==> Linked(ht[a], cs[a])
      requires Linked(ht[i], chains[i]) && NoDuplicates(chains[i])
      requires forall k :: k in t ==> Listed(cs[Hash(k)], k)
      ensures (forall a :: 0 <= a < |chains| ==> ChainOk(a)) && forall k :: k in table ==> Listed(chains[Hash(k)], k)
    {
      hide Hash, Linked, Listed;
      forall k | k in table
        ensures Listed(chains[Hash(k)], k)
      {
        assert Listed(cs[Hash(k)], k);
        if Hash(k) == i {
          ListedWithout(cs[i], j, k);
        }
      }
      forall a | 0 <= a < |chains|
        ensures ChainOk(a)
      {
        assert FiledIn(cs[a], a, t) && FiledIn(cs[i], i, t);
      }
    }

    /** Buckets of different lists are different. */
    lemma ListsApart(i: nat, j: nat)
      requires Valid() && i < |chains| && j < |chains[i]|
      ensures forall a :: 0 <= a < |chains| && a != i ==> chains[i][j] !in chains[a]
      ensures chains[i][j] in Repr && chains[i][j].key in table
    {
      hide Hash, Linked, Listed;
      assert ChainOk(i);
      forall a | 0 <= a < |chains| && a != i
        ensures chains[i][j] !in chains[a]
      {
        assert ChainOk(a);
      }
    }

    lemma FirstBucket(i: nat, j: nat)
      requires Valid() && i < |chains| && j < |chains[i]|
      ensures ht[i] == chains[i][0] && (chains[i][j] == ht[i] <==> j == 0) && NoDuplicates(chains[i])
      ensures forall m :: 0 <= m < |chains[i]| ==> NextIs(chains[i], m)
      ensures chains[i][j].next == if j + 1 < |chains[i]| then chains[i][j + 1] else null
    {
      hide Hash, Listed;
      assert ChainOk(i);
      assert NextIs(chains[i], j);
    }

    /** Take bucket j out of list `index`. */
    method Unlink(index: nat, prevBuc: HashBucket, tmpBuc: HashBucket, ghost j: nat)
      requires Valid() && index < ht.Length && j < |chains[index]| && tmpBuc == chains[index][j]
      requires prevBuc == chains[index][if j == 0 then 0 else j - 1]
      modifies this, ht, prevBuc
      ensures Valid() && Repr == old(Repr)
      ensures table == old(table) - {tmpBuc.key}
    {
      hide Hash, Linked, Listed, NextIs;
      ghost var cs, t, c := chains, table, chains[index];
      AllChains(cs, t);
      ListsApart(index, j);
      ListsApart(index, if j == 0 then 0 else j - 1);
      FirstBucket(index, j);
      if tmpBuc == ht[index] {
        ht[index] := tmpBuc.next;
      } else {
        prevBuc.next := tmpBuc.next;
      }
      chains, table := cs[index := c[..j] + c[j + 1..]], t - {tmpBuc.key};
      Unlinked(ht[index], c, j);
      WithoutOk(index, j, cs, t);
    }

    /** Delete the entry of a page. */
    method Remove(k: Key) returns (status: Status)
      requires Valid()
      modifies this, ht, Repr
      ensures Valid() && Repr == old(Repr)
      ensures status == if k in old(table) then OK else HASHTBLERROR
      ensures table == old(table) - {k}
    {
      hide Hash, Linked;
      var index := Hash(k);
      ghost var c, j := chains[index], 0;
      assert ChainOk(index);
      var tmpBuc := FirstOf(index);
      var prevBuc := tmpBuc;
      while tmpBuc != null
        invariant j <= |c| && tmpBuc == (if j < |c| then c[j] else null)
        invariant Valid() && chains == old(chains) && table == old(table) && Repr == old(Repr)
        invariant c != [] ==> prevBuc == c[if j == 0 then 0 else j - 1]
        invariant forall m :: 0 <= m < j ==> c[m].key != k
        decreases |c| - j
      {
        if tmpBuc.key == k {
          ListsApart(index, j);
          ListsApart(index, if j == 0 then 0 else j - 1);
          Unlink(index, prevBuc, tmpBuc, j);
          return OK;
        }
        NextOf(index, j);
        prevBuc := tmpBuc;
        tmpBuc := tmpBuc.next;
        j := j + 1;
      }
      return HASHTBLERROR;
    }

    lemma AllChains(cs: seq<seq<HashBucket>>, t: map<Key, int>)
      requires Valid() && cs == chains && t == table
      ensures forall a :: 0 <= a < |cs| ==> FiledIn(cs[a], a, t) && NoDuplicates(cs[a]) && Linked(ht[a], cs[a])
    {
      hide Linked, Hash, Listed;
      forall a | 0 <= a < |cs|
        ensures FiledIn(cs[a], a, t) && NoDuplicates(cs[a]) && Linked(ht[a], cs[a])
      {
        assert ChainOk(a);
      }
    }
  }

  lemma ListedInFront(b: HashBucket, c: seq<HashBucket>, k: Key)
    requires b.key == k || Listed(c, k)
    ensures Listed([b] + c, k)
  {
    var d := [b] + c;
    if b.key == k {
      assert d[0].key == k;
    } else {
      var j :| 0 <= j < |c| && c[j].key == k;
      assert d[j + 1].key == k;
    }
  }

  lemma ListedWithout(c: seq<HashBucket>, j: nat, k: Key)
    requires j < |c| && Listed(c, k) && k != c[j].key
    ensures Listed(c[..j] + c[j + 1..], k)
  {
    var m :| 0 <= m < |c| && c[m].key == k;
    assert (c[..j] + c[j + 1..])[if m < j then m else m - 1].key == k;
  }
}
