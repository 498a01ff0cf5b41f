/**
 * The field descriptor `Param` (FreeD.py:7-22): one fixed-width field of a
 * message, its byte range, optional fixed-point multiplier and signedness.
 */
module FieldDescriptor {
  import opened Wrappers
  import opened BigEndian

  /**
   * Python's `buf[lo:hi]` for non-negative bounds: both ends are clamped to
   * the buffer, so a range past the end yields a shorter (or empty) slice
   * and never an error.
   */
  function Slice(buf: seq<Byte>, lo: nat, hi: nat): (r: seq<Byte>)
    ensures lo <= hi <= |buf| ==> r == buf[lo..hi]
    ensures |buf| <= lo ==> r == []
    ensures lo <= hi ==> |r| <= hi - lo
    ensures lo <= |buf| <= hi ==> r == buf[lo..]
  {
    var h := if hi < |buf| then hi else |buf|;
    var l := if lo < h then lo else h;
    buf[l..h]
  }

  datatype Param = Param(name: string, begin: nat, size: nat, mult: Option<int>, signed: bool)
  {
    /** `loc`: the slice [begin, begin + size). */
    function Loc(): (r: (nat, nat))
      ensures r.0 == begin && r.1 - r.0 == size
    {
      (begin, begin + size)
    }

    /** Byte `k` lies in this field's slice. */
    predicate Covers(k: int)
    {
      Loc().0 <= k < Loc().1
    }

    /** `if param.mult:` in Python: a missing and a zero multiplier both mean "unscaled". */
    predicate Scaled()
    {
      mult.Some? && mult.value != 0
    }

    /**
     * `parse`: the big-endian value of `buf[loc]`, signed or unsigned.
     * A buffer too short for the field gives the value of whatever part of
     * the slice is present (0 when nothing is).
     */
    function Parse(buf: seq<Byte>): (r: int)
      ensures Fits(r, size, signed)
      ensures begin + size <= |buf| ==> r == FromBytes(buf[begin..begin + size], signed)
      ensures begin >= |buf| ==> r == 0
      ensures begin < |buf| < begin + size ==> r == FromBytes(buf[begin..], signed)
    {
      var s := Slice(buf, Loc().0, Loc().1);
      FitsWiden(FromBytes(s, signed), |s|, size, signed);
      FromBytes(s, signed)
    }

    /** `buf[loc] = bs` for a slice that lies inside the buffer and bytes of the field's width. */
    function Assign(buf: seq<Byte>, bs: seq<Byte>): (r: seq<Byte>)
      requires begin + size <= |buf| && |bs| == size
      ensures |r| == |buf|
      ensures r[begin..begin + size] == bs
    {
      buf[..begin] + bs + buf[begin + size..]
    }
  }

  /** Two descriptors whose byte ranges do not overlap. */
  predicate Disjoint(p: Param, q: Param)
  {
    p.begin + p.size <= q.begin || q.begin + q.size <= p.begin
  }

  /**
   * Writing a value that fits into a field's slice and parsing that field
   * gives the value back; the rest of the buffer does not matter.
   */
  lemma ParseAfterAssign(p: Param, buf: seq<Byte>, v: int)
    requires p.begin + p.size <= |buf|
    requires Fits(v, p.size, p.signed)
    ensures p.Parse(p.Assign(buf, ToBytes(v, p.size, p.signed).value)) == v
  {
    FromToBytes(v, p.size, p.signed);
  }

  /** A descriptor sees only its own bytes: buffers that agree on its slice parse alike. */
  lemma ParseLocal(p: Param, a: seq<Byte>, b: seq<Byte>)
    requires p.begin + p.size <= |a| && p.begin + p.size <= |b|
    requires forall k :: p.Covers(k) ==> a[k] == b[k]
    ensures p.Parse(a) == p.Parse(b)
  {
    assert a[p.begin..p.begin + p.size] == b[p.begin..p.begin + p.size];
  }
}
