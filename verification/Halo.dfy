/**
 The halo exchange of `communication` (jupiter/communication.c, 901-971): every rank packs,
 sends, waits and unpacks in z, then in y, then in x, at its own speed.
 */
module Halo {
  import opened Layout
  import opened Slab
  import opened Ranks

  /** The decomposition: the rank grid, the cells per rank, the halo width and the local array. */
  datatype Domain = Domain(grid: Dims, n: Index, stcl: nat, d: Dims) {

    predicate Valid() {
      && n.x >= 0 && n.y >= 0 && n.z >= 0
      && d.mx >= n.x + 2 * stcl && d.my >= n.y + 2 * stcl && d.mz >= n.z + 2 * stcl
    }

    /** The slab of `stcl` layers starting at layer `start` of axis k. */
    function SlabBox(k: nat, start: nat): Box {
      if k == 0 then Box(0, 0, start, Dims(d.mx, d.my, stcl))
      else if k == 1 then Box(0, start, 0, Dims(d.mx, stcl, d.mz))
      else Box(start, 0, 0, Dims(stcl, d.my, d.mz))
    }

    /** Where the message for direction dir is packed from, and where the one from it goes. */
    function SendBox(dir: nat): Box
      requires Valid()
    {
      SlabBox(dir / 2, if dir % 2 == 0 then stcl else Get(n, dir / 2))
    }

    function RecvBox(dir: nat): Box
      requires Valid()
    {
      SlabBox(dir / 2, if dir % 2 == 0 then 0 else Get(n, dir / 2) + stcl)
    }
  }

  /** One field per rank. */
  type Fields = seq<seq<real>>

  ghost predicate FieldsOf(dom: Domain, F: Fields) {
    |F| == dom.grid.Size() && forall r | 0 <= r < |F| :: |F[r]| == dom.d.Size()
  }

  /** The message a rank with field f sends in direction dir. */
  function Payload(dom: Domain, f: seq<real>, dir: nat): (buf: seq<real>)
    requires dom.Valid() && |f| == dom.d.Size() && dir < 6
    ensures |buf| == dom.RecvBox(Opposite(dir)).size.Size()
  {
    Packed(f, dom.d, dom.SendBox(dir))
  }

  /** Field f after the messages of axis k, where there is a neighbour, have been unpacked. */
  function Received(dom: Domain, f: seq<real>, k: nat, low: Option<seq<real>>, high: Option<seq<real>>): (g: seq<real>)
    requires dom.Valid() && |f| == dom.d.Size() && k < 3
    requires low.Some? ==> |low.value| == dom.RecvBox(2 * k).size.Size()
    requires high.Some? ==> |high.value| == dom.RecvBox(2 * k + 1).size.Size()
    ensures |g| == dom.d.Size()
  {
    var f1 := if low.Some? then Unpacked(f, dom.d, dom.RecvBox(2 * k), low.value) else f;
    if high.Some? then Unpacked(f1, dom.d, dom.RecvBox(2 * k + 1), high.value) else f1
  }

  /** calc_ptr's layout: the segments of the directions with a neighbour lie in order inside the buffer. */
  ghost predicate Laid(dom: Domain, ptr: seq<int>, nrk: seq<int>, total: int)
    requires dom.Valid() && |ptr| == 7 && |nrk| == 6
  {
    && (forall dir: nat | dir < 6 && nrk[dir] > -1 ::
          0 <= ptr[dir] && ptr[dir] + dom.RecvBox(dir).size.Size() <= total)
    && (forall dir: nat, dir': nat | dir < dir' < 6 && nrk[dir] > -1 && nrk[dir'] > -1 ::
          ptr[dir] + dom.RecvBox(dir).size.Size() <= ptr[dir'])
  }

  /** What calc_ptr computes is such a layout, for the buffers `communication` allocates. */
  lemma CalcPtrLays(dom: Domain, ptr: seq<int>, nrk: seq<int>, total: int)
    requires dom.Valid() && |ptr| == 7 && |nrk| == 6
    requires forall dir: nat | dir < 6 && nrk[dir] > -1 :: ptr[dir] == SegmentStart(dom.d, dom.stcl, nrk, dir)
    requires total == (dom.d.mx * dom.d.my + dom.d.my * dom.d.mz + dom.d.mz * dom.d.mx) * 2 * dom.stcl
    ensures Laid(dom, ptr, nrk, total)
  {
    hide MessageSize, SegmentStart, Dims.Size, Domain.RecvBox;
    SegmentsFit(dom.d, dom.stcl, nrk);
    forall dir: nat | dir < 6
      ensures dom.RecvBox(dir).size.Size() == MessageSize(dom.d, dom.stcl, dir)
    {
      SizesAgree(dom, dir);
    }
    forall dir: nat, dir': nat | dir < dir' <= 6 && nrk[dir] > -1
      ensures SegmentStart(dom.d, dom.stcl, nrk, dir) + MessageSize(dom.d, dom.stcl, dir)
              <= SegmentStart(dom.d, dom.stcl, nrk, dir')
    {
      SegmentsDisjoint(dom.d, dom.stcl, nrk, dir, dir');
    }
  }

  /** The sizes passed to MPI are those of the boxes. */
  lemma SizesAgree(dom: Domain, dir: nat)
    requires dom.Valid() && dir < 6
    ensures dom.RecvBox(dir).size.Size() == MessageSize(dom.d, dom.stcl, dir)
  {
  }

  /** The part of a buffer that belongs to direction dir. */
  ghost function Segment(dom: Domain, ptr: seq<int>, nrk: seq<int>, buf: seq<real>, dir: nat): (m: Option<seq<real>>)
    requires dom.Valid() && |ptr| == 7 && |nrk| == 6 && dir < 6 && Laid(dom, ptr, nrk, |buf|)
    ensures m.Some? <==> nrk[dir] > -1
    ensures m.Some? ==> |m.value| == dom.RecvBox(dir).size.Size()
  {
    if nrk[dir] > -1 then Some(buf[ptr[dir]..ptr[dir] + dom.RecvBox(dir).size.Size()]) else None
  }

  /** pack_mpi_z / pack_mpi_y / pack_mpi_x. */
  method PackAxis(dom: Domain, f: array<real>, sbuff: array<real>, ptr: array<int>, nrk: array<int>, k: nat)
    requires dom.Valid() && k < 3 && f.Length == dom.d.Size() && sbuff != f && ptr.Length == 7 && nrk.Length == 6
    requires Laid(dom, ptr[..], nrk[..], sbuff.Length)
    modifies sbuff
    ensures nrk[2 * k] > -1 ==> Segment(dom, ptr[..], nrk[..], sbuff[..], 2 * k) == Some(Payload(dom, f[..], 2 * k))
    ensures nrk[2 * k + 1] > -1 ==>
              Segment(dom, ptr[..], nrk[..], sbuff[..], 2 * k + 1) == Some(Payload(dom, f[..], 2 * k + 1))
  {
    PackDirection(dom, f, sbuff, ptr, nrk, 2 * k);
    ghost var s1 := sbuff[..];
    PackDirection(dom, f, sbuff, ptr, nrk, 2 * k + 1);
    SegmentKept(dom, ptr[..], nrk[..], s1, sbuff[..], 2 * k, 2 * k + 1);
  }

  /** Writing the segment of one direction leaves that of another alone. */
  lemma SegmentKept(dom: Domain, ptr: seq<int>, nrk: seq<int>, s: seq<real>, t: seq<real>, dir: nat, dir': nat)
    requires dom.Valid() && |ptr| == 7 && |nrk| == 6 && dir < dir' < 6 && |s| == |t| && Laid(dom, ptr, nrk, |s|)
    requires Outside(dom, ptr, nrk, s, t, dir')
    ensures Segment(dom, ptr, nrk, s, dir) == Segment(dom, ptr, nrk, t, dir)
  {
    if nrk[dir] > -1 {
      var lo, hi := ptr[dir], ptr[dir] + dom.RecvBox(dir).size.Size();
      assert s[lo..hi] == t[lo..hi];
    }
  }

  /** s and t agree outside the segment of direction dir. */
  ghost predicate Outside(dom: Domain, ptr: seq<int>, nrk: seq<int>, s: seq<real>, t: seq<real>, dir: nat)
    requires dom.Valid() && |ptr| == 7 && |nrk| == 6 && dir < 6 && |s| == |t|
  {
    forall j | 0 <= j < |s| && (nrk[dir] > -1 ==> !(ptr[dir] <= j < ptr[dir] + dom.RecvBox(dir).size.Size())) ::
      s[j] == t[j]
  }

  method PackDirection(dom: Domain, f: array<real>, sbuff: array<real>, ptr: array<int>, nrk: array<int>, dir: nat)
    requires dom.Valid() && dir < 6 && f.Length == dom.d.Size() && sbuff != f && ptr.Length == 7 && nrk.Length == 6
    requires Laid(dom, ptr[..], nrk[..], sbuff.Length)
    modifies sbuff
    ensures nrk[dir] > -1 ==> Segment(dom, ptr[..], nrk[..], sbuff[..], dir) == Some(Payload(dom, f[..], dir))
    ensures Outside(dom, ptr[..], nrk[..], old(sbuff[..]), sbuff[..], dir)
  {
    if nrk[dir] > -1 {
      Pack(sbuff, ptr[dir], f, dom.d, dom.SendBox(dir));
    }
  }

  /** unpack_mpi_z / unpack_mpi_y / unpack_mpi_x. */
  method UnpackAxis(dom: Domain, f: array<real>, rbuff: array<real>, ptr: array<int>, nrk: array<int>, k: nat)
    requires dom.Valid() && k < 3 && f.Length == dom.d.Size() && rbuff != f && ptr.Length == 7 && nrk.Length == 6
    requires Laid(dom, ptr[..], nrk[..], rbuff.Length)
    modifies f
    ensures f[..] == Received(dom, old(f[..]), k, Segment(dom, ptr[..], nrk[..], rbuff[..], 2 * k),
                                                  Segment(dom, ptr[..], nrk[..], rbuff[..], 2 * k + 1))
  {
    var lo, hi := 2 * k, 2 * k + 1;
    if nrk[lo] > -1 {
      UnpackDirection(dom, f, rbuff, ptr[lo], lo, dom.RecvBox(lo).size.Size());
    }
    if nrk[hi] > -1 {
      UnpackDirection(dom, f, rbuff, ptr[hi], hi, dom.RecvBox(hi).size.Size());
    }
  }

  method UnpackDirection(dom: Domain, f: array<real>, rbuff: array<real>, ptr: nat, dir: nat, ghost len: nat)
    requires dom.Valid() && dir < 6 && f.Length == dom.d.Size() && rbuff != f
    requires len == dom.RecvBox(dir).size.Size() && ptr + len <= rbuff.Length
    modifies f
    ensures f[..] == Unpacked(old(f[..]), dom.d, dom.RecvBox(dir), rbuff[ptr..ptr + len])
  {
    Unpack(rbuff, ptr, f, dom.d, dom.RecvBox(dir));
  }
}
