/**
 Packing a slab of a field into a message buffer and unpacking it again
 (jupiter/communication.c, pack_x/y/z and unpack_x/y/z).  The three directions differ
 only in the box of cells they walk, so the box is a parameter here.
 */
module Slab {
  import opened Layout

  /** A box of cells with corner (ox, oy, oz); a message holds it in row-major order. */
  datatype Box = Box(ox: nat, oy: nat, oz: nat, size: Dims) {

    predicate Fits(d: Dims) {
      ox + size.mx <= d.mx && oy + size.my <= d.my && oz + size.mz <= d.mz
    }

    predicate Covers(c: Index) {
      size.Has(c.x - ox, c.y - oy, c.z - oz)
    }

    /** The buffer slot of a covered cell. */
    function Slot(c: Index): (t: int)
      ensures Covers(c) ==> 0 <= t < size.Size()
    {
      Addr(size, c.x - ox, c.y - oy, c.z - oz)
    }
  }

  function At(f: seq<real>, d: Dims, c: Index): real
    requires |f| == d.Size() && d.Has(c.x, c.y, c.z)
  {
    f[Addr(d, c.x, c.y, c.z)]
  }

  /** Storing into one cell changes that cell only. */
  lemma StoreAt(f: seq<real>, d: Dims, e: Index, v: real, c: Index)
    requires |f| == d.Size() && d.Has(c.x, c.y, c.z) && d.Has(e.x, e.y, e.z)
    ensures At(f[Addr(d, e.x, e.y, e.z) := v], d, c) == if c == e then v else At(f, d, c)
  {
    AddrInjective(d, c.x, c.y, c.z, e.x, e.y, e.z);
  }

  /** Two fields with the same value in every cell are the same. */
  lemma FieldsEqual(d: Dims, f: seq<real>, g: seq<real>)
    requires |f| == |g| == d.Size()
    requires forall c: Index | d.Has(c.x, c.y, c.z) :: At(f, d, c) == At(g, d, c)
    ensures f == g
  {
    forall j | 0 <= j < |f|
      ensures f[j] == g[j]
    {
      var c := CellAt(d, j);
      assert At(f, d, c) == At(g, d, c);
    }
  }

  /** The message that carries box `b` of field `f`. */
  function Packed(f: seq<real>, d: Dims, b: Box): (buf: seq<real>)
    requires |f| == d.Size() && b.Fits(d)
    ensures |buf| == b.size.Size()
  {
    seq(b.size.Size(), (t: nat) requires t < b.size.Size() =>
      var c := CellAt(b.size, t);
      At(f, d, Index(b.ox + c.x, b.oy + c.y, b.oz + c.z)))
  }

  lemma PackedSlot(f: seq<real>, d: Dims, b: Box, c: Index)
    requires |f| == d.Size() && b.Fits(d) && b.Covers(c)
    ensures Packed(f, d, b)[b.Slot(c)] == At(f, d, c)
  {
    StructIndexOfAddr(b.size, c.x - b.ox, c.y - b.oy, c.z - b.oz);
  }

  /** Field `f` after box `b` has been overwritten from message `buf`. */
  function Unpacked(f: seq<real>, d: Dims, b: Box, buf: seq<real>): (g: seq<real>)
    requires |f| == d.Size() && |buf| == b.size.Size()
    ensures |g| == d.Size()
  {
    seq(d.Size(), (j: nat) requires j < d.Size() =>
      var c := CellAt(d, j);
      if b.Covers(c) then buf[b.Slot(c)] else f[j])
  }

  lemma UnpackedAt(f: seq<real>, d: Dims, b: Box, buf: seq<real>, c: Index)
    requires |f| == d.Size() && |buf| == b.size.Size() && d.Has(c.x, c.y, c.z)
    ensures At(Unpacked(f, d, b, buf), d, c) == if b.Covers(c) then buf[b.Slot(c)] else At(f, d, c)
  {
    StructIndexOfAddr(d, c.x, c.y, c.z);
  }

  /** What has been sent is what arrives: a packed box unpacks to the cells it was taken from. */
  lemma UnpackPacked(f: seq<real>, g: seq<real>, d: Dims, from: Box, to: Box, c: Index)
    requires |f| == |g| == d.Size() && from.Fits(d) && to.Fits(d) && from.size == to.size
    requires d.Has(c.x, c.y, c.z)
    ensures At(Unpacked(g, d, to, Packed(f, d, from)), d, c) ==
            if to.Covers(c) then
              At(f, d, Index(c.x - to.ox + from.ox, c.y - to.oy + from.oy, c.z - to.oz + from.oz))
            else At(g, d, c)
  {
    UnpackedAt(g, d, to, Packed(f, d, from), c);
    if to.Covers(c) {
      PackedSlot(f, d, from, Index(c.x - to.ox + from.ox, c.y - to.oy + from.oy, c.z - to.oz + from.oz));
    }
  }

  /** The first `k` slots of `msg` have been stored from `ptr` on, and nothing else has changed. */
  ghost predicate Filled(s: seq<real>, s0: seq<real>, ptr: nat, msg: seq<real>, k: int)
    requires |s| == |s0| && ptr + |msg| <= |s|
  {
    && (forall t | 0 <= t < |msg| && t < k :: s[ptr + t] == msg[t])
    && (forall j | 0 <= j < |s| && !(ptr <= j < ptr + k) :: s[j] == s0[j])
  }

  /** One trip through a loop nest advances the row-major address by one. */
  lemma NextAddr(d: Dims, x: int, y: int, z: int)
    ensures Addr(d, x + 1, y, z) == Addr(d, x, y, z) + 1
    ensures Addr(d, d.mx, y, z) == Addr(d, 0, y + 1, z)
    ensures Addr(d, 0, d.my, z) == Addr(d, 0, 0, z + 1)
    ensures Addr(d, 0, 0, d.mz) == d.Size()
    ensures Addr(d, 0, 0, 0) == 0
  {
    ShiftX(d, x, y, z);
    ShiftY(d, 0, y, z);
    RowEnd(d, y, z);
    AddrSplits(d, 0, d.my, z);
    AddrSplits(d, 0, 0, z + 1);
    AddrSplits(d, 0, 0, d.mz);
    AddrSplits(d, 0, 0, 0);
    SizeIsPlanes(d);
    hide Addr, Dims.Size;
    Times(z, d.mx * d.my);
    Commute(d.mx, d.my);
  }

  lemma RowEnd(d: Dims, y: int, z: int)
    ensures Addr(d, d.mx, y, z) == Addr(d, 0, y, z) + d.mx
  {
  }

  /** pack_x, pack_y, pack_z. */
  method Pack(sbuff: array<real>, ptr: nat, f: array<real>, d: Dims, b: Box)
    requires sbuff != f && f.Length == d.Size() && b.Fits(d)
    requires ptr + b.size.Size() <= sbuff.Length
    modifies sbuff
    ensures sbuff[..] == old(sbuff[..ptr]) + Packed(f[..], d, b) + old(sbuff[ptr + b.size.Size()..])
  {
    hide Filled, Addr, Packed, Dims.Size;
    ghost var s0, msg := sbuff[..], Packed(f[..], d, b);
    NothingFilled(s0, ptr, msg);
    NextAddr(b.size, 0, 0, 0);
    for jz := 0 to b.size.mz
      invariant Filled(sbuff[..], s0, ptr, msg, Addr(b.size, 0, 0, jz))
    {
      for jy := 0 to b.size.my
        invariant Filled(sbuff[..], s0, ptr, msg, Addr(b.size, 0, jy, jz))
      {
        for jx := 0 to b.size.mx
          invariant Filled(sbuff[..], s0, ptr, msg, Addr(b.size, jx, jy, jz))
        {
          PackStep(sbuff, ptr, f, d, b, jx, jy, jz, s0);
        }
        NextAddr(b.size, 0, jy, jz);
      }
      NextAddr(b.size, 0, 0, jz);
    }
    AllFilled(sbuff[..], s0, ptr, msg);
  }

  lemma NothingFilled(s: seq<real>, ptr: nat, msg: seq<real>)
    requires ptr + |msg| <= |s|
    ensures Filled(s, s, ptr, msg, 0)
  {
  }

  lemma AllFilled(s: seq<real>, s0: seq<real>, ptr: nat, msg: seq<real>)
    requires |s| == |s0| && ptr + |msg| <= |s| && Filled(s, s0, ptr, msg, |msg|)
    ensures s == s0[..ptr] + msg + s0[ptr + |msg|..]
  {
    forall j | 0 <= j < |s|
      ensures s[j] == (s0[..ptr] + msg + s0[ptr + |msg|..])[j]
    {
      if ptr <= j < ptr + |msg| {
        assert s[ptr + (j - ptr)] == msg[j - ptr];
      }
    }
  }

  /** The body of the innermost packing loop. */
  method PackStep(sbuff: array<real>, ptr: nat, f: array<real>, d: Dims, b: Box,
                  jx: nat, jy: nat, jz: nat, ghost s0: seq<real>)
    requires sbuff != f && f.Length == d.Size() && b.Fits(d)
    requires ptr + b.size.Size() <= sbuff.Length && b.size.Has(jx, jy, jz)
    requires |s0| == sbuff.Length
    requires Filled(sbuff[..], s0, ptr, Packed(f[..], d, b), Addr(b.size, jx, jy, jz))
    modifies sbuff
    ensures Filled(sbuff[..], s0, ptr, Packed(f[..], d, b), Addr(b.size, jx + 1, jy, jz))
  {
    hide Addr, Packed, Dims.Size;
    var j := Addr(d, b.ox + jx, b.oy + jy, b.oz + jz);
    var t := Addr(b.size, jx, jy, jz);
    PackedSlot(f[..], d, b, Index(b.ox + jx, b.oy + jy, b.oz + jz));
    NextAddr(b.size, jx, jy, jz);
    sbuff[ptr + t] := f[j];
  }

  /** unpack_x, unpack_y, unpack_z. */
  method Unpack(rbuff: array<real>, ptr: nat, f: array<real>, d: Dims, b: Box)
    requires rbuff != f && f.Length == d.Size() && b.Fits(d)
    requires ptr + b.size.Size() <= rbuff.Length
    modifies f
    ensures f[..] == Unpacked(old(f[..]), d, b, rbuff[ptr..ptr + b.size.Size()])
  {
    ghost var f0, buf := f[..], rbuff[ptr..ptr + b.size.Size()];
    for jz := 0 to b.size.mz
      invariant Stored(f[..], f0, d, b, buf, 0, 0, jz)
    {
      for jy := 0 to b.size.my
        invariant Stored(f[..], f0, d, b, buf, 0, jy, jz)
      {
        for jx := 0 to b.size.mx
          invariant Stored(f[..], f0, d, b, buf, jx, jy, jz)
        {
          var c := Index(b.ox + jx, b.oy + jy, b.oz + jz);
          var j := Addr(d, c.x, c.y, c.z);
          ghost var before := f[..];
          f[j] := rbuff[ptr + Addr(b.size, jx, jy, jz)];
          StoredStep(before, f[..], f0, d, b, buf, jx, jy, jz);
        }
      }
    }
    forall c: Index | d.Has(c.x, c.y, c.z)
      ensures At(f[..], d, c) == At(Unpacked(f0, d, b, buf), d, c)
    {
      UnpackedAt(f0, d, b, buf, c);
    }
    FieldsEqual(d, f[..], Unpacked(f0, d, b, buf));
  }

  /** The cells of `b` that the loop nest has visited before (jx, jy, jz) hold their message values. */
  ghost predicate Stored(f: seq<real>, f0: seq<real>, d: Dims, b: Box, buf: seq<real>, jx: int, jy: int, jz: int)
    requires |f| == |f0| == d.Size() && |buf| == b.size.Size()
  {
    forall c: Index | d.Has(c.x, c.y, c.z) ::
      At(f, d, c) == if b.Covers(c) && Before(c.x - b.ox, c.y - b.oy, c.z - b.oz, jx, jy, jz)
                     then buf[b.Slot(c)] else At(f0, d, c)
  }

  lemma StoredStep(f: seq<real>, g: seq<real>, f0: seq<real>, d: Dims, b: Box, buf: seq<real>,
                   jx: int, jy: int, jz: int)
    requires |f| == |f0| == d.Size() && |buf| == b.size.Size() && b.Fits(d) && b.size.Has(jx, jy, jz)
    requires Stored(f, f0, d, b, buf, jx, jy, jz)
    requires g == f[Addr(d, b.ox + jx, b.oy + jy, b.oz + jz) := buf[Addr(b.size, jx, jy, jz)]]
    ensures Stored(g, f0, d, b, buf, jx + 1, jy, jz)
  {
    forall c: Index | d.Has(c.x, c.y, c.z)
      ensures At(g, d, c) == if b.Covers(c) && Before(c.x - b.ox, c.y - b.oy, c.z - b.oz, jx + 1, jy, jz)
                             then buf[b.Slot(c)] else At(f0, d, c)
    {
      AddrInjective(d, c.x, c.y, c.z, b.ox + jx, b.oy + jy, b.oz + jz);
      assert At(f, d, c) == if b.Covers(c) && Before(c.x - b.ox, c.y - b.oy, c.z - b.oz, jx, jy, jz)
                            then buf[b.Slot(c)] else At(f0, d, c);
    }
  }
}
