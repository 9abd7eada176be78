/** marshal.h: TPM 1.2 structures as big-endian bytes, and the bounds-checked unpacking of them. */
module Marshal {
  import opened Arith
  import opened Bytes

  const DIGEST: nat := 20
  /** Buffers are shorter than this: lengths are ints. */
  const LIMIT: nat := 0x8000_0000

  datatype Parsed<T> = Fail | Got(v: T, pos: nat)

  // ----- Fields ------------------------------------------------------------------------------------------------

  function U8(v: nat): seq<byte>
    requires v < 0x100
  {
    [v as byte]
  }

  function U16(v: nat): (b: seq<byte>)
    requires v < 0x1_0000
    ensures |b| == 2
  {
    [(v / 0x100) as byte, (v % 0x100) as byte]
  }

  function U32(v: nat): (b: seq<byte>)
    requires v < WORD
    ensures |b| == 4
  {
    U16(v / 0x1_0000) + U16(v % 0x1_0000)
  }

  /** The bounds check: *pos + size > max in 32 bits. */
  predicate Fits(pos: nat, size: nat, max: nat) {
    (pos + size) % WORD <= max
  }

  function GetU8(buf: seq<byte>, pos: nat, max: nat): Parsed<nat>
    requires pos <= max <= |buf| && max < LIMIT
  {
    if Fits(pos, 1, max) then Got(buf[pos] as nat, pos + 1) else Fail
  }

  function GetU16(buf: seq<byte>, pos: nat, max: nat): Parsed<nat>
    requires pos <= max <= |buf| && max < LIMIT
  {
    if Fits(pos, 2, max) then Got(buf[pos] as nat * 0x100 + buf[pos + 1] as nat, pos + 2) else Fail
  }

  function GetU32(buf: seq<byte>, pos: nat, max: nat): Parsed<nat>
    requires pos <= max <= |buf| && max < LIMIT
  {
    if Fits(pos, 4, max) then
      Got(((buf[pos] as nat * 0x100 + buf[pos + 1] as nat) * 0x100 + buf[pos + 2] as nat) * 0x100 + buf[pos + 3] as nat,
          pos + 4)
    else Fail
  }

  /** unpack3_PTR; unpack3_BUFFER lacks the first test, which a size no larger than a digest passes anyway. */
  function GetBytes(buf: seq<byte>, pos: nat, max: nat, size: nat): Parsed<seq<byte>>
    requires pos <= max <= |buf| && max < LIMIT
  {
    if size > max || !Fits(pos, size, max) then Fail else Got(buf[pos..pos + size], pos + size)
  }

  // ----- What it is for an unpacking to read an encoding ---------------------------------------------

  /** As far as `max` allows, the bytes at `pos` are those of `e`. */
  ghost predicate Agree(buf: seq<byte>, pos: nat, max: nat, e: seq<byte>) {
    && pos <= max <= |buf| && max < LIMIT
    && forall i :: 0 <= i < |e| && pos + i < max ==> buf[pos + i] == e[i]
  }

  /** All of it is there and its value comes back, or it is cut short and refused. */
  ghost predicate Reads<T(!new)>(r: Parsed<T>, pos: nat, max: nat, e: seq<byte>, v: T) {
    r == if pos + |e| <= max then Got(v, pos + |e|) else Fail
  }

  lemma AgreeSplit(buf: seq<byte>, pos: nat, max: nat, a: seq<byte>, b: seq<byte>)
    requires Agree(buf, pos, max, a + b)
    ensures Agree(buf, pos, max, a) && (pos + |a| <= max ==> Agree(buf, pos + |a|, max, b))
  {
    forall i | 0 <= i < |a| && pos + i < max
      ensures buf[pos + i] == a[i]
    {
      assert (a + b)[i] == a[i];
    }
    forall i | 0 <= i < |b| && pos + |a| + i < max
      ensures buf[pos + |a| + i] == b[i]
    {
      assert (a + b)[|a| + i] == b[i];
      assert buf[pos + (|a| + i)] == (a + b)[|a| + i];
    }
  }

  lemma U8Reads(buf: seq<byte>, pos: nat, max: nat, v: nat)
    requires v < 0x100 && Agree(buf, pos, max, U8(v))
    ensures Reads(GetU8(buf, pos, max), pos, max, U8(v), v)
  {
    assert pos + 1 <= max ==> buf[pos + 0] == U8(v)[0];
  }

  lemma U16Reads(buf: seq<byte>, pos: nat, max: nat, v: nat)
    requires v < 0x1_0000 && Agree(buf, pos, max, U16(v))
    ensures Reads(GetU16(buf, pos, max), pos, max, U16(v), v)
  {
    assert pos + 2 <= max ==> buf[pos + 0] == U16(v)[0] && buf[pos + 1] == U16(v)[1];
  }

  lemma U32Reads(buf: seq<byte>, pos: nat, max: nat, v: nat)
    requires v < WORD && Agree(buf, pos, max, U32(v))
    ensures Reads(GetU32(buf, pos, max), pos, max, U32(v), v)
  {
    if pos + 4 <= max {
      assert buf[pos + 0] == U32(v)[0] && buf[pos + 1] == U32(v)[1] && buf[pos + 2] == U32(v)[2]
          && buf[pos + 3] == U32(v)[3];
      assert buf[pos] as nat * 0x100 + buf[pos + 1] as nat == v / 0x1_0000;
    }
  }

  lemma BytesRead(buf: seq<byte>, pos: nat, max: nat, v: seq<byte>)
    requires |v| < WORD && Agree(buf, pos, max, v)
    ensures Reads(GetBytes(buf, pos, max, |v|), pos, max, v, v)
  {
    if pos + |v| <= max {
      assert buf[pos..pos + |v|] == v;
    }
  }

  // ----- Sized blobs ---------------------------------------------------------------------------------

  /** A 32-bit length and that many bytes: TPM_STORE_PUBKEY, encrypted data, key parameters. */
  function Blob(v: seq<byte>): seq<byte>
    requires |v| < WORD
  {
    U32(|v|) + v
  }

  function GetBlob(buf: seq<byte>, pos: nat, max: nat): (r: Parsed<seq<byte>>)
    requires pos <= max <= |buf| && max < LIMIT
    ensures r.Got? ==> r.pos <= max
  {
    var n := GetU32(buf, pos, max);
    if n.Fail? then Fail else GetBytes(buf, n.pos, max, n.v)
  }

  lemma BlobReads(buf: seq<byte>, pos: nat, max: nat, v: seq<byte>)
    requires |v| < WORD && Agree(buf, pos, max, Blob(v))
    ensures Reads(GetBlob(buf, pos, max), pos, max, Blob(v), v)
  {
    AgreeSplit(buf, pos, max, U32(|v|), v);
    U32Reads(buf, pos, max, |v|);
    if pos + 4 <= max {
      hide U32, GetU32;
      BytesRead(buf, pos + 4, max, v);
    }
  }

  /** TPM_PCR_SELECTION: a 16-bit length and the bitmap. */
  function Selection(v: seq<byte>): seq<byte>
    requires |v| < 0x1_0000
  {
    U16(|v|) + v
  }

  function GetSelection(buf: seq<byte>, pos: nat, max: nat): (r: Parsed<seq<byte>>)
    requires pos <= max <= |buf| && max < LIMIT
    ensures r.Got? ==> r.pos <= max
  {
    var n := GetU16(buf, pos, max);
    if n.Fail? then Fail else GetBytes(buf, n.pos, max, n.v)
  }

  lemma SelectionReads(buf: seq<byte>, pos: nat, max: nat, v: seq<byte>)
    requires |v| < 0x1_0000 && Agree(buf, pos, max, Selection(v))
    ensures Reads(GetSelection(buf, pos, max), pos, max, Selection(v), v)
  {
    AgreeSplit(buf, pos, max, U16(|v|), v);
    U16Reads(buf, pos, max, |v|);
    if pos + 2 <= max {
      hide U16, GetU16;
      BytesRead(buf, pos + 2, max, v);
    }
  }
}
