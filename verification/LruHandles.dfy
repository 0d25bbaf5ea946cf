/** Cache entries and the sums of their charges. */
module LruHandles {
  type Key = seq<int>

  /** What the hash table looks an entry up by. */
  datatype Slot = Slot(key: Key, hash: nat)

  /** An entry. The table links entries through `nextHash`, the LRU list through `next` and `prev`. */
  class LRUHandle {
    const key: Key
    const hash: nat
    const charge: nat
    const isHighPri: bool
    var nextHash: LRUHandle?
    var next: LRUHandle?
    var prev: LRUHandle?
    var refs: nat
    var inCache: bool
    var inHighPriPool: bool

    constructor (key: Key, hash: nat, charge: nat, isHighPri: bool, refs: nat)
      ensures this.key == key && this.hash == hash && this.charge == charge && this.isHighPri == isHighPri
      ensures this.refs == refs && inCache && !inHighPriPool && next == null && prev == null
    {
      this.key, this.hash, this.charge, this.isHighPri := key, hash, charge, isHighPri;
      nextHash, next, prev := null, null, null;
      this.refs, inCache, inHighPriPool := refs, true, false;
    }

    function Place(): Slot {
      Slot(key, hash)
    }
  }
}
