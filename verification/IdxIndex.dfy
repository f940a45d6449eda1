/** A compact IDX index: one leaf page that holds everything. */
module IdxIndex {
  import opened Entries
  import opened Bytes
  import opened CompactLeaf
  import opened LeafEncoder
  import opened NdxTree
  import NdxBuild

  const LARGEST_KEY := 240

  /** A page of zeros has an entry width of zero, which no reader accepts. */
  lemma ZeroPageIsMalformed(keyLen: nat)
    ensures LeafEntries(Zeros(BLOCK_SIZE), keyLen, false) == None
  {
  }

  /** Writing a key count of zero leaves a page of zeros alone. */
  lemma NoKeysInZeroPage()
    ensures Splice(Zeros(BLOCK_SIZE), 2, LeBytes(0, 2)) == Zeros(BLOCK_SIZE)
  {
    assert LeBytes(0, 2) == [0, 0] by {
      assert LeBytes(0, 0) == [] && LeBytes(0, 1) == [0];
    }
  }

  lemma EmptyFits(keyLen: nat)
    ensures FitsLeaf([], keyLen) <==> 1 <= keyLen <= CompactLeaf.MAX_KEY
  {
    TextStart([]);
  }

  /** Sorting and dropping duplicates keeps keys of one length. */
  lemma IndexedKeys(list: seq<Entry>, unique: bool, keyLen: nat)
    requires KeysOf(list, keyLen)
    ensures KeysOf(Indexed(list, unique), keyLen) && (Indexed(list, unique) == [] <==> list == [])
  {
    var sorted := Sort(list);
    SortFacts(list);
    FirstOfEachMembers(sorted);
    assert |multiset(sorted)| == |multiset(list)|;
    forall i | 0 <= i < |sorted| ensures |sorted[i].key| == keyLen {
      assert sorted[i] in multiset(list);
    }
    forall i | 0 <= i < |Indexed(list, unique)| ensures |Indexed(list, unique)[i].key| == keyLen {
      assert Indexed(list, unique)[i] in sorted;
    }
  }

  class Index {
    const keySize: nat
    const unique: bool
    var root: nat
    var leaf: seq<byte>

    /** An index that was never built has no leaf. */
    constructor (keySize: nat, unique: bool)
      requires 1 <= keySize <= LARGEST_KEY
      ensures this.keySize == keySize && this.unique == unique && root == 0
    {
      this.keySize, this.unique, root, leaf := keySize, unique, 0, [];
    }

    /** Replaces the contents. A list that is not empty must fit one leaf; an empty one is always
        accepted, but with keys too long for a leaf the page written for it cannot be read. */
    method Build(list: seq<Entry>) returns (ok: bool)
      requires 1 <= keySize <= LARGEST_KEY
      modifies this
      ensures ok <==> KeysOf(list, keySize) && (list == [] || FitsLeaf(Indexed(list, unique), keySize))
      ensures !ok ==> root == old(root) && leaf == old(leaf)
      ensures ok ==> root > 0 && |leaf| == BLOCK_SIZE
      ensures ok && keySize <= CompactLeaf.MAX_KEY ==> LeafEntries(leaf, keySize, false) == Some(Indexed(list, unique))
      ensures ok && keySize > CompactLeaf.MAX_KEY ==> LeafEntries(leaf, keySize, false) == None
    {
      hide LeafEntries, Indexed;
      ok := NdxBuild.KeysFit(list, keySize);
      if !ok {
        return;
      }
      IndexedKeys(list, unique, keySize);
      EmptyFits(keySize);
      var sorted := NdxBuild.Arranged(list, unique);
      var block := new byte[BLOCK_SIZE](_ => 0);
      assert block[..] == Zeros(BLOCK_SIZE);
      ok := WriteLeaf(block, sorted, keySize);
      if !ok {
        if |sorted| > 0 {
          return;
        }
        Put(block, 2, LeBytes(0, 2));
        NoKeysInZeroPage();
        ZeroPageIsMalformed(keySize);
        ok := true;
      }
      root, leaf := BLOCK_SIZE, block[..];
    }

    method Entries() returns (r: Option<seq<Entry>>)
      requires root == 0 || |leaf| == BLOCK_SIZE
      ensures r == if root == 0 then Some([]) else LeafEntries(leaf, keySize, false)
    {
      if root == 0 {
        return Some([]);
      }
      r := DecodeLeaf(leaf, keySize);
    }

    /** The record numbers under a key; a key of another length is refused, and so is a damaged page. */
    method Seek(key: seq<byte>) returns (out: Option<seq<nat>>)
      requires root == 0 || |leaf| == BLOCK_SIZE
      ensures out.Some? ==> |key| == keySize && (root == 0 || LeafEntries(leaf, keySize, false).Some?)
      ensures |key| == keySize && root == 0 ==> out == Some([])
      ensures |key| == keySize && root > 0 && LeafEntries(leaf, keySize, false).Some? ==>
        out == Some(RecnosFor(LeafEntries(leaf, keySize, false).value, key))
    {
      if |key| != keySize {
        return None;
      }
      var all := Entries();
      if all.None? {
        return None;
      }
      var recnos := CollectRecnos(all.value, key);
      out := Some(recnos);
    }
  }
}
