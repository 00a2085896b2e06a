/** The machine's memory as the kernel's allocators see it.

    Addresses are byte addresses.  A memory maps the address of each intact 32-bit field to its value, and the
    address of each intact byte to its value.  Storing a field destroys every other field and every byte that it
    overlaps, so a proof that something can be read is also a proof that nothing has been written across it. */
module Memory {

  const WORD := 0x1_0000_0000

  /** The value that a uint32_t keeps of `x`. */
  function U32(x: int): (r: int)
    ensures 0 <= r < WORD
    ensures 0 <= x < WORD ==> r == x
  {
    x % WORD
  }

  datatype Memory = Memory(words: map<int, int>, bytes: map<int, int>)

  predicate Apart(a: int, b: int) {
    a + 4 <= b || b + 4 <= a
  }

  /** `after` is `m` with `v` stored in the field at `a`. */
  ghost predicate Stored(m: Memory, a: int, v: int, after: Memory) {
    && a in after.words && after.words[a] == v
    && (forall k :: k in m.words && Apart(a, k) ==> k in after.words && after.words[k] == m.words[k])
    && (forall k :: k in after.words && k != a ==> Apart(a, k) && k in m.words)
    && (forall k :: k in m.bytes && !(a <= k < a + 4) ==> k in after.bytes && after.bytes[k] == m.bytes[k])
  }

  /** `after` is `m` with zeros from `lo` up to `hi`. */
  ghost predicate Cleared(m: Memory, lo: int, hi: int, after: Memory) {
    && (forall k :: lo <= k < hi ==> k in after.bytes && after.bytes[k] == 0)
    && (forall k :: k in m.bytes && !(lo <= k < hi) ==> k in after.bytes && after.bytes[k] == m.bytes[k])
    && (forall k :: k in m.words && (k + 4 <= lo || hi <= k) ==> k in after.words && after.words[k] == m.words[k])
  }

  class Ram {
    var mem: Memory

    /** A 32-bit store. */
    method Store(a: int, v: int)
      requires 0 <= v < WORD
      modifies this
      ensures Stored(old(mem), a, v, mem)
    {
      var words := map k | k in mem.words && Apart(a, k) :: mem.words[k];
      var bytes := map k | k in mem.bytes && !(a <= k < a + 4) :: mem.bytes[k];
      mem := Memory(words[a := v], bytes);
    }

    /** A store of one byte. */
    method StoreByte(a: int, v: int)
      modifies this
      ensures mem.bytes == old(mem.bytes)[a := v]
      ensures forall k :: k in old(mem.words) && (k + 4 <= a || a < k) ==> k in mem.words && mem.words[k] == old(mem.words)[k]
    {
      var words := map k | k in mem.words && (k + 4 <= a || a < k) :: mem.words[k];
      mem := Memory(words, mem.bytes[a := v]);
    }

    /** memset with 0. */
    method Clear(lo: int, hi: int)
      requires lo <= hi
      modifies this
      ensures Cleared(old(mem), lo, hi, mem)
    {
      for a := lo to hi
        invariant Cleared(old(mem), lo, a, mem)
      {
        StoreByte(a, 0);
      }
    }
  }
}
