/** The message buffers of `mbuf.c`: one block of bytes per mbuf, of which a window holds the data. */
module Mbufs {

  type Byte = b: int | 0 <= b < 256
  type U16 = x: int | 0 <= x < 0x1_0000

  /** Identifies the datagram a fragment belongs to: the fields `ip_input` compares. */
  datatype FlowKey = FlowKey(id: nat, src: nat, dst: nat, proto: nat)

  /** MINCSIZE: how much `m_cat` grows a block that is too small. */
  const GROWTH: nat := 4096

  /** `struct mbuf`, together with the fields of the IP header it carries. */
  class Mbuf {
    var store: seq<Byte>  // the block m_dat or m_ext; |store| is m_size
    var data: int         // m_data, as an index into the block
    var len: int          // m_len

    const key: FlowKey
    const hdr: nat        // where the IP header starts in the block
    const hlen: nat       // ip_hl << 2
    var ipOff: int
    var ipLen: int
    var mff: bool

    constructor (block: seq<Byte>, data: int, len: int, key: FlowKey, hlen: nat, ipOff: int, ipLen: int, mff: bool)
      requires 0 <= data
      ensures this.store == block && this.data == data && this.len == len
      ensures this.key == key && this.hdr == data && this.hlen == hlen
      ensures this.ipOff == ipOff && this.ipLen == ipLen && this.mff == mff
    {
      this.store, this.data, this.len := block, data, len;
      this.key, this.hdr, this.hlen := key, data, hlen;
      this.ipOff, this.ipLen, this.mff := ipOff, ipLen, mff;
    }

    ghost predicate Valid()
      reads this
    {
      0 <= data && 0 <= len && data + len <= |store|
    }

    function Contents(): (s: seq<Byte>)
      requires Valid()
      reads this
      ensures |s| == len
    {
      store[data..data + len]
    }

    /** M_FREEROOM */
    function FreeRoom(): int
      reads this
    {
      |store| - data - len
    }

    /** `m_adj`: a count of zero or more trims the head, a negative one trims the tail. */
    method Adj(n: int)
      requires Valid() && -len <= n <= len
      modifies this`data, this`len
      ensures Valid()
      ensures n >= 0 ==> data == old(data) + n && Contents() == old(Contents())[n..]
      ensures n < 0 ==> data == old(data) && Contents() == old(Contents())[..old(len) + n]
    {
      if n >= 0 {
        data := data + n;
        len := len - n;
      } else {
        len := len + n;
      }
    }

    /** `m_inc`: moves the block to a larger one; bytes and offsets keep their places. */
    method Inc(size: nat)
      requires Valid()
      modifies this`store
      ensures Valid() && old(store) <= store
      ensures |store| >= size
    {
      if |store| > size {
        return;
      }
      store := store + seq(size - |store|, _ => 0);
    }

    /** `m_cat` up to its `m_free`: appends the data of `n`, growing the block when there is no room. */
    method Cat(n: Mbuf)
      requires n != this && Valid() && n.Valid()
      requires n.len <= FreeRoom() || n.len <= GROWTH
      modifies this`store, this`len
      ensures Valid()
      ensures Contents() == old(Contents()) + n.Contents()
      ensures store[..old(data + len)] == old(store[..data + len])
    {
      if FreeRoom() < n.len {
        Inc(|store| + GROWTH);
      }
      store := store[..data + len] + n.Contents() + store[data + len + n.len..];
      len := len + n.len;
    }

    /** `m_copy`: appends `size` bytes of `m` found from `off`; refuses when they do not fit. */
    method Copy(m: Mbuf, off: nat, size: nat) returns (ok: bool)
      requires m != this && Valid() && m.Valid() && off + size <= m.len
      modifies this`store, this`len
      ensures ok == (size <= old(FreeRoom()))
      ensures Valid()
      ensures Contents() == old(Contents()) + (if ok then m.Contents()[off..off + size] else [])
      ensures |store| == old(|store|)
    {
      if size > FreeRoom() {
        assert Contents() + [] == Contents();
        return false;
      }
      store := store[..data + len] + m.Contents()[off..off + size] + store[data + len + size..];
      len := len + size;
      return true;
    }
  }
}
