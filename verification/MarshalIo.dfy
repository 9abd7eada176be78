/** The pack_ and unpack3_ functions at work on a buffer and a position. */
module MarshalIo {
  import opened Arith
  import opened Bytes
  import opened Marshal
  import opened MarshalKey

  /** `e` was written at p, and nothing before it touched. */
  ghost predicate Wrote(before: seq<byte>, p: nat, after: seq<byte>, q: nat, e: seq<byte>) {
    q == p + |e| <= |after| == |before| && after[..p] == before[..p] && after[p..q] == e
  }

  lemma WroteBoth(a: seq<byte>, p: nat, b: seq<byte>, q: nat, c: seq<byte>, r: nat, d: seq<byte>, e: seq<byte>)
    requires Wrote(a, p, b, q, d) && Wrote(b, q, c, r, e)
    ensures Wrote(a, p, c, r, d + e)
  {
    assert c[..p] == c[..q][..p] && b[..p] == b[..q][..p];
    assert c[p..q] == c[..q][p..] && b[p..q] == b[..q][p..];
    assert c[p..r] == c[p..q] + c[q..r];
  }

  class Packer {
    const buf: array<byte>
    var pos: nat

    constructor (buf: array<byte>)
      ensures this.buf == buf && pos == 0
    {
      this.buf := buf;
      pos := 0;
    }

    /** pack_BUFFER, and what the integers come to. */
    method Put(e: seq<byte>)
      requires pos + |e| <= buf.Length
      modifies this`pos, buf
      ensures Wrote(old(buf[..]), old(pos), buf[..], pos, e)
    {
      ghost var before := buf[..];
      CopyIn(buf, pos, e);
      assert buf[..pos] == before[..pos];
      pos := pos + |e|;
    }

    method PutBlob(v: seq<byte>)
      requires |v| < WORD && pos + |Blob(v)| <= buf.Length
      modifies this`pos, buf
      ensures Wrote(old(buf[..]), old(pos), buf[..], pos, Blob(v))
    {
      hide Wrote, U32;
      ghost var b0, p0 := buf[..], pos;
      Put(U32(|v|));
      After(b0, p0, buf[..], pos, U32(|v|));
      ghost var b1, p1 := buf[..], pos;
      Put(v);
      WroteBoth(b0, p0, b1, p1, buf[..], pos, U32(|v|), v);
    }

    /** pack_TPM_KEY_PARMS. */
    method PutKeyParms(k: KeyParms)
      requires KeyParmsOk(k) && pos + |KeyParmsBytes(k)| <= buf.Length
      modifies this`pos, buf
      ensures Wrote(old(buf[..]), old(pos), buf[..], pos, KeyParmsBytes(k))
    {
      hide Wrote, U32, U16, ParmsBytes;
      ghost var b0, p0 := buf[..], pos;
      ghost var parms := ParmsBytes(k.parms);
      var head := U32(k.alg) + (U16(k.enc) + (U16(k.sig) + U32(k.parmSize)));
      assert KeyParmsBytes(k) == head + parms;
      Put(head);
      After(b0, p0, buf[..], pos, head);
      ghost var b1, p1 := buf[..], pos;
      if k.parmSize != 0 {
        PutParms(k);
      } else {
        NoParmsBytes(k);
        Nothing(b1, p1);
      }
      WroteBoth(b0, p0, b1, p1, buf[..], pos, head, parms);
    }

    method PutParms(k: KeyParms)
      requires KeyParmsOk(k) && k.parmSize != 0 && pos + |ParmsBytes(k.parms)| <= buf.Length
      modifies this`pos, buf
      ensures Wrote(old(buf[..]), old(pos), buf[..], pos, ParmsBytes(k.parms))
    {
      hide U32, Blob;
      if k.alg == ALG_RSA {
        PutTriple(k.parms.keyLength, k.parms.numPrimes, k.parms.exponent);
      } else {
        PutTriple(k.parms.keyBits, k.parms.blockSize, k.parms.iv);
      }
    }

    method PutTriple(a: nat, b: nat, v: seq<byte>)
      requires TripleOk(a, b, v) && pos + |Triple(a, b, v)| <= buf.Length
      modifies this`pos, buf
      ensures Wrote(old(buf[..]), old(pos), buf[..], pos, Triple(a, b, v))
    {
      hide Wrote, U32, Blob;
      ghost var b0, p0 := buf[..], pos;
      assert Triple(a, b, v) == (U32(a) + U32(b)) + Blob(v);
      Put(U32(a) + U32(b));
      After(b0, p0, buf[..], pos, U32(a) + U32(b));
      ghost var b1, p1 := buf[..], pos;
      PutBlob(v);
      WroteBoth(b0, p0, b1, p1, buf[..], pos, U32(a) + U32(b), Blob(v));
    }

    /** pack_TPM_KEY. */
    method PutKey(k: Key)
      requires KeyOk(k) && pos + |KeyBytes(k)| <= buf.Length
      modifies this`pos, buf
      ensures Wrote(old(buf[..]), old(pos), buf[..], pos, KeyBytes(k))
    {
      hide Wrote, U32, U16, U8, KeyParmsBytes, OptPcr, Blob;
      ghost var b0, p0 := buf[..], pos;
      var head := k.ver + (U16(k.usage) + (U32(k.flags) + U8(k.auth)));
      var parms := KeyParmsBytes(k.parms);
      ghost var tail := KeyTail(k);
      assert KeyBytes(k) == head + (parms + tail);
      Put(head);
      After(b0, p0, buf[..], pos, head);
      ghost var b1, p1 := buf[..], pos;
      PutKeyParms(k.parms);
      After(b1, p1, buf[..], pos, parms);
      ghost var b2, p2 := buf[..], pos;
      PutKeyTail(k);
      WroteBoth(b1, p1, b2, p2, buf[..], pos, parms, tail);
      WroteBoth(b0, p0, b1, p1, buf[..], pos, head, parms + tail);
    }

    method PutKeyTail(k: Key)
      requires KeyOk(k) && pos + |KeyTail(k)| <= buf.Length
      modifies this`pos, buf
      ensures Wrote(old(buf[..]), old(pos), buf[..], pos, KeyTail(k))
    {
      hide Wrote, U32, KeyParmsOk, PcrInfoBytes, Blob;
      ghost var b0, p0 := buf[..], pos;
      var head := U32(k.pcrSize) + (if k.pcrSize != 0 then PcrInfoBytes(k.pcr.value) else []);
      assert KeyTail(k) == head + (Blob(k.pub) + Blob(k.enc));
      Put(head);
      After(b0, p0, buf[..], pos, head);
      ghost var b1, p1 := buf[..], pos;
      PutBlob(k.pub);
      After(b1, p1, buf[..], pos, Blob(k.pub));
      ghost var b2, p2 := buf[..], pos;
      PutBlob(k.enc);
      WroteBoth(b1, p1, b2, p2, buf[..], pos, Blob(k.pub), Blob(k.enc));
      WroteBoth(b0, p0, b1, p1, buf[..], pos, head, Blob(k.pub) + Blob(k.enc));
    }

    /** pack_TPM_STORED_DATA12. */
    method PutStored(d: StoredData)
      requires StoredOk(d) && pos + |StoredBytes(d)| <= buf.Length
      modifies this`pos, buf
      ensures Wrote(old(buf[..]), old(pos), buf[..], pos, StoredBytes(d))
    {
      hide Wrote, U32, U16, PcrInfoLongBytes, Blob;
      ghost var b0, p0 := buf[..], pos;
      var head := U16(d.tag)
          + (U16(d.et) + (U32(d.sealSize) + (if d.sealSize != 0 then PcrInfoLongBytes(d.seal.value) else [])));
      assert StoredBytes(d) == head + Blob(d.enc);
      Put(head);
      After(b0, p0, buf[..], pos, head);
      ghost var b1, p1 := buf[..], pos;
      PutBlob(d.enc);
      WroteBoth(b0, p0, b1, p1, buf[..], pos, head, Blob(d.enc));
    }
  }

  lemma After(a: seq<byte>, p: nat, b: seq<byte>, q: nat, e: seq<byte>)
    requires Wrote(a, p, b, q, e)
    ensures q == p + |e| && |b| == |a|
  {}

  lemma Nothing(b: seq<byte>, p: nat)
    requires p <= |b|
    ensures Wrote(b, p, b, p, [])
  {}

  lemma WroteAgrees(a: seq<byte>, p: nat, b: seq<byte>, q: nat, e: seq<byte>, max: nat)
    requires Wrote(a, p, b, q, e) && p <= max <= |b| && max < LIMIT
    ensures Agree(b, p, max, e)
  {
    forall i | 0 <= i < |e| && p + i < max
      ensures b[p + i] == e[i]
    {
      assert b[p..q][i] == e[i];
    }
  }

  /** A key packed anywhere in a buffer is unpacked from there, whole or not at all. */
  method PackThenUnpackKey(p: Packer, k: Key, max: nat) returns (r: Parsed<Key>)
    requires KeyOk(k) && p.pos + |KeyBytes(k)| <= p.buf.Length && p.pos <= max <= p.buf.Length && max < LIMIT
    modifies p`pos, p.buf
    ensures p.pos == old(p.pos) + SizeofKey(k)
    ensures r == if p.pos <= max then Got(k, p.pos) else Fail
  {
    hide KeyBytes, GetKey, Wrote, Agree, SizeofKey;
    var from := p.pos;
    ghost var before := p.buf[..];
    p.PutKey(k);
    After(before, from, p.buf[..], p.pos, KeyBytes(k));
    WroteAgrees(before, from, p.buf[..], p.pos, KeyBytes(k), max);
    KeySize(k);
    KeyRoundTrip(p.buf[..], from, max, k);
    r := GetKey(p.buf[..], from, max);
  }

  method PackThenUnpackStored(p: Packer, d: StoredData, max: nat) returns (r: Parsed<StoredData>)
    requires StoredOk(d) && p.pos + |StoredBytes(d)| <= p.buf.Length && p.pos <= max <= p.buf.Length && max < LIMIT
    modifies p`pos, p.buf
    ensures p.pos == old(p.pos) + SizeofStored(d)
    ensures r == if p.pos <= max then Got(d, p.pos) else Fail
  {
    hide StoredBytes, GetStored, Wrote, Agree, SizeofStored;
    var from := p.pos;
    ghost var before := p.buf[..];
    p.PutStored(d);
    After(before, from, p.buf[..], p.pos, StoredBytes(d));
    WroteAgrees(before, from, p.buf[..], p.pos, StoredBytes(d), max);
    StoredSize(d);
    StoredRoundTrip(p.buf[..], from, max, d);
    r := GetStored(p.buf[..], from, max);
  }
}
