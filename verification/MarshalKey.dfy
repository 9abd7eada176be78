/** TPM_KEY and TPM_STORED_DATA12: sections 10.2 and 9.2 of TPM Main Part 2. */
module MarshalKey {
  import opened Arith
  import opened Wrappers
  import opened Bytes
  import opened Marshal

  const ALG_RSA: nat := 1
  const ALG_AES128: nat := 6
  const ALG_AES192: nat := 8
  const ALG_AES256: nat := 9

  predicate Aes(alg: nat) {
    alg == ALG_AES128 || alg == ALG_AES192 || alg == ALG_AES256
  }

  /** TPM_RSA_KEY_PARMS or TPM_SYMMETRIC_KEY_PARMS. */
  datatype Parms = NoParms | Rsa(keyLength: nat, numPrimes: nat, exponent: seq<byte>) | Sym(keyBits: nat,
      blockSize: nat, iv: seq<byte>)

  datatype KeyParms = KeyParms(alg: nat, enc: nat, sig: nat, parmSize: nat, parms: Parms)

  datatype PcrInfo = PcrInfo(selection: seq<byte>, atRelease: seq<byte>, atCreation: seq<byte>)

  datatype PcrInfoLong = PcrInfoLong(tag: nat, localityAtCreation: nat, localityAtRelease: nat,
    creation: seq<byte>, release: seq<byte>, digestAtCreation: seq<byte>, digestAtRelease: seq<byte>)

  /** `ver` is the four version bytes. */
  datatype Key = Key(ver: seq<byte>, usage: nat, flags: nat, auth: nat, parms: KeyParms,
    pcrSize: nat, pcr: Option<PcrInfo>, pub: seq<byte>, enc: seq<byte>)

  datatype StoredData = StoredData(tag: nat, et: nat, sealSize: nat, seal: Option<PcrInfoLong>, enc: seq<byte>)

  // ----- Triples: two 32-bit numbers and a blob ---------------------------------------------------------------------

  predicate TripleOk(a: nat, b: nat, v: seq<byte>) {
    a < WORD && b < WORD && |v| < WORD
  }

  function Triple(a: nat, b: nat, v: seq<byte>): seq<byte>
    requires TripleOk(a, b, v)
  {
    U32(a) + (U32(b) + Blob(v))
  }

  function GetTriple(buf: seq<byte>, pos: nat, max: nat): (r: Parsed<(nat, nat, seq<byte>)>)
    requires pos <= max <= |buf| && max < LIMIT
    ensures r.Got? ==> r.pos <= max
  {
    var a := GetU32(buf, pos, max);
    if a.Fail? then Fail
    else
      var b := GetU32(buf, a.pos, max);
      if b.Fail? then Fail
      else
        var v := GetBlob(buf, b.pos, max);
        if v.Fail? then Fail else Got((a.v, b.v, v.v), v.pos)
  }

  lemma TripleReads(buf: seq<byte>, pos: nat, max: nat, a: nat, b: nat, v: seq<byte>)
    requires TripleOk(a, b, v) && Agree(buf, pos, max, Triple(a, b, v))
    ensures Reads(GetTriple(buf, pos, max), pos, max, Triple(a, b, v), (a, b, v))
  {
    hide U32, GetU32, Agree, Blob, GetBlob;
    AgreeSplit(buf, pos, max, U32(a), U32(b) + Blob(v));
    AgreeIn(buf, pos, max, U32(a));
    U32Reads(buf, pos, max, a);
    if pos + 4 <= max {
      AgreeSplit(buf, pos + 4, max, U32(b), Blob(v));
      U32Reads(buf, pos + 4, max, b);
      if pos + 8 <= max {
        BlobReads(buf, pos + 8, max, v);
      }
    }
  }

  lemma AgreeIn(buf: seq<byte>, pos: nat, max: nat, e: seq<byte>)
    requires Agree(buf, pos, max, e)
    ensures pos <= max <= |buf| && max < LIMIT
  {}

  // ----- TPM_KEY_PARMS -------------------------------------------------------------------------------

  /** Parameters are there when their size is not zero, in the form the algorithm has. */
  predicate KeyParmsOk(k: KeyParms) {
    && k.alg < WORD && k.enc < 0x1_0000 && k.sig < 0x1_0000 && k.parmSize < WORD
    && match k.parms
       case NoParms => k.parmSize == 0
       case Rsa(a, b, v) => k.parmSize != 0 && k.alg == ALG_RSA && TripleOk(a, b, v)
       case Sym(a, b, v) => k.parmSize != 0 && Aes(k.alg) && TripleOk(a, b, v)
  }

  function ParmsBytes(p: Parms): seq<byte>
    requires p.Rsa? ==> TripleOk(p.keyLength, p.numPrimes, p.exponent)
    requires p.Sym? ==> TripleOk(p.keyBits, p.blockSize, p.iv)
  {
    match p
    case NoParms => []
    case Rsa(a, b, v) => Triple(a, b, v)
    case Sym(a, b, v) => Triple(a, b, v)
  }

  function KeyParmsBytes(k: KeyParms): seq<byte>
    requires KeyParmsOk(k)
  {
    U32(k.alg) + (U16(k.enc) + (U16(k.sig) + (U32(k.parmSize) + ParmsBytes(k.parms))))
  }

  function GetParms(buf: seq<byte>, pos: nat, max: nat, alg: nat): (r: Parsed<Parms>)
    requires pos <= max <= |buf| && max < LIMIT
    ensures r.Got? ==> r.pos <= max
  {
    if alg == ALG_RSA || Aes(alg) then
      var t := GetTriple(buf, pos, max);
      if t.Fail? then Fail
      else Got(if alg == ALG_RSA then Rsa(t.v.0, t.v.1, t.v.2) else Sym(t.v.0, t.v.1, t.v.2), t.pos)
    else Fail
  }

  function GetKeyParms(buf: seq<byte>, pos: nat, max: nat): (r: Parsed<KeyParms>)
    requires pos <= max <= |buf| && max < LIMIT
    ensures r.Got? ==> r.pos <= max
  {
    var alg := GetU32(buf, pos, max);
    if alg.Fail? then Fail
    else
      var enc := GetU16(buf, alg.pos, max);
      if enc.Fail? then Fail
      else
        var sig := GetU16(buf, enc.pos, max);
        if sig.Fail? then Fail
        else
          var size := GetU32(buf, sig.pos, max);
          if size.Fail? then Fail
          else if size.v == 0 then Got(KeyParms(alg.v, enc.v, sig.v, 0, NoParms), size.pos)
          else
            var p := GetParms(buf, size.pos, max, alg.v);
            if p.Fail? then Fail else Got(KeyParms(alg.v, enc.v, sig.v, size.v, p.v), p.pos)
  }

  lemma ParmsRead(buf: seq<byte>, pos: nat, max: nat, k: KeyParms)
    requires KeyParmsOk(k) && k.parmSize != 0 && Agree(buf, pos, max, ParmsBytes(k.parms))
    ensures Reads(GetParms(buf, pos, max, k.alg), pos, max, ParmsBytes(k.parms), k.parms)
  {
    hide Agree, Triple, GetTriple;
    AgreeIn(buf, pos, max, ParmsBytes(k.parms));
    match k.parms {
      case Rsa(a, b, v) => TripleReads(buf, pos, max, a, b, v);
      case Sym(a, b, v) => TripleReads(buf, pos, max, a, b, v);
    }
  }

  lemma KeyParmsRead(buf: seq<byte>, pos: nat, max: nat, k: KeyParms)
    requires KeyParmsOk(k) && Agree(buf, pos, max, KeyParmsBytes(k))
    ensures Reads(GetKeyParms(buf, pos, max), pos, max, KeyParmsBytes(k), k)
  {
    hide U32, GetU32, U16, GetU16, Agree, ParmsBytes, GetParms;
    var parms := ParmsBytes(k.parms);
    AgreeIn(buf, pos, max, KeyParmsBytes(k));
    AgreeSplit(buf, pos, max, U32(k.alg), U16(k.enc) + (U16(k.sig) + (U32(k.parmSize) + parms)));
    U32Reads(buf, pos, max, k.alg);
    if pos + 4 <= max {
      AgreeSplit(buf, pos + 4, max, U16(k.enc), U16(k.sig) + (U32(k.parmSize) + parms));
      U16Reads(buf, pos + 4, max, k.enc);
      if pos + 6 <= max {
        AgreeSplit(buf, pos + 6, max, U16(k.sig), U32(k.parmSize) + parms);
        U16Reads(buf, pos + 6, max, k.sig);
        if pos + 8 <= max {
          AgreeSplit(buf, pos + 8, max, U32(k.parmSize), parms);
          U32Reads(buf, pos + 8, max, k.parmSize);
          if pos + 12 <= max {
            if k.parmSize == 0 {
              NoParmsBytes(k);
            } else {
              ParmsRead(buf, pos + 12, max, k);
            }
          }
        }
      }
    }
  }

  lemma NoParmsBytes(k: KeyParms)
    requires KeyParmsOk(k) && k.parmSize == 0
    ensures ParmsBytes(k.parms) == [] && k.parms == NoParms
  {}

  /** What pack writes for another algorithm with a size that is not zero is never accepted. */
  lemma UnsupportedRefused(buf: seq<byte>, pos: nat, max: nat, alg: nat, enc: nat, sig: nat, parmSize: nat)
    requires alg < WORD && enc < 0x1_0000 && sig < 0x1_0000 && 0 < parmSize < WORD
    requires Agree(buf, pos, max, U32(alg) + (U16(enc) + (U16(sig) + U32(parmSize))))
    requires alg != ALG_RSA && !Aes(alg)
    ensures GetKeyParms(buf, pos, max) == Fail
  {
    hide U32, GetU32, U16, GetU16, Agree;
    AgreeIn(buf, pos, max, U32(alg) + (U16(enc) + (U16(sig) + U32(parmSize))));
    AgreeSplit(buf, pos, max, U32(alg), U16(enc) + (U16(sig) + U32(parmSize)));
    U32Reads(buf, pos, max, alg);
    if pos + 4 <= max {
      AgreeSplit(buf, pos + 4, max, U16(enc), U16(sig) + U32(parmSize));
      U16Reads(buf, pos + 4, max, enc);
      if pos + 6 <= max {
        AgreeSplit(buf, pos + 6, max, U16(sig), U32(parmSize));
        U16Reads(buf, pos + 6, max, sig);
        if pos + 8 <= max {
          U32Reads(buf, pos + 8, max, parmSize);
        }
      }
    }
  }

  // ----- TPM_PCR_INFO and TPM_PCR_INFO_LONG ----------------------------------------------------------

  predicate PcrInfoOk(p: PcrInfo) {
    |p.selection| < 0x1_0000 && |p.atRelease| == DIGEST && |p.atCreation| == DIGEST
  }

  function PcrInfoBytes(p: PcrInfo): seq<byte>
    requires PcrInfoOk(p)
  {
    Selection(p.selection) + (p.atRelease + p.atCreation)
  }

  function GetPcrInfo(buf: seq<byte>, pos: nat, max: nat): (r: Parsed<PcrInfo>)
    requires pos <= max <= |buf| && max < LIMIT
    ensures r.Got? ==> r.pos <= max
  {
    var s := GetSelection(buf, pos, max);
    if s.Fail? then Fail
    else
      var d := GetDigests(buf, s.pos, max);
      if d.Fail? then Fail else Got(PcrInfo(s.v, d.v.0, d.v.1), d.pos)
  }

  function GetDigests(buf: seq<byte>, pos: nat, max: nat): (r: Parsed<(seq<byte>, seq<byte>)>)
    requires pos <= max <= |buf| && max < LIMIT
    ensures r.Got? ==> r.pos <= max
  {
    var a := GetBytes(buf, pos, max, DIGEST);
    if a.Fail? then Fail
    else
      var b := GetBytes(buf, a.pos, max, DIGEST);
      if b.Fail? then Fail else Got((a.v, b.v), b.pos)
  }

  lemma DigestsRead(buf: seq<byte>, pos: nat, max: nat, a: seq<byte>, b: seq<byte>)
    requires |a| == |b| == DIGEST && Agree(buf, pos, max, a + b)
    ensures Reads(GetDigests(buf, pos, max), pos, max, a + b, (a, b))
  {
    hide Agree, GetBytes;
    AgreeIn(buf, pos, max, a + b);
    AgreeSplit(buf, pos, max, a, b);
    BytesRead(buf, pos, max, a);
    if pos + DIGEST <= max {
      BytesRead(buf, pos + DIGEST, max, b);
    }
  }

  lemma PcrInfoReads(buf: seq<byte>, pos: nat, max: nat, p: PcrInfo)
    requires PcrInfoOk(p) && Agree(buf, pos, max, PcrInfoBytes(p))
    ensures Reads(GetPcrInfo(buf, pos, max), pos, max, PcrInfoBytes(p), p)
  {
    hide Agree, Selection, GetSelection, GetDigests;
    AgreeIn(buf, pos, max, PcrInfoBytes(p));
    AgreeSplit(buf, pos, max, Selection(p.selection), p.atRelease + p.atCreation);
    SelectionReads(buf, pos, max, p.selection);
    var next := pos + |Selection(p.selection)|;
    if next <= max {
      DigestsRead(buf, next, max, p.atRelease, p.atCreation);
    }
  }

  predicate PcrInfoLongOk(p: PcrInfoLong) {
    && p.tag < 0x1_0000 && p.localityAtCreation < 0x100 && p.localityAtRelease < 0x100
    && |p.creation| < 0x1_0000 && |p.release| < 0x1_0000 && |p.digestAtCreation| == DIGEST
         && |p.digestAtRelease| == DIGEST
  }

  function LongTail(p: PcrInfoLong): seq<byte>
    requires PcrInfoLongOk(p)
  {
    Selection(p.creation) + (Selection(p.release) + (p.digestAtCreation + p.digestAtRelease))
  }

  function PcrInfoLongBytes(p: PcrInfoLong): seq<byte>
    requires PcrInfoLongOk(p)
  {
    U16(p.tag) + (U8(p.localityAtCreation) + (U8(p.localityAtRelease) + LongTail(p)))
  }

  function GetLongTail(buf: seq<byte>, pos: nat, max: nat, tag: nat, atCreation: nat,
                       atRelease: nat): (r: Parsed<PcrInfoLong>)
    requires pos <= max <= |buf| && max < LIMIT
    ensures r.Got? ==> r.pos <= max
  {
    var c := GetSelection(buf, pos, max);
    if c.Fail? then Fail
    else
      var s := GetSelection(buf, c.pos, max);
      if s.Fail? then Fail
      else
        var d := GetDigests(buf, s.pos, max);
        if d.Fail? then Fail else Got(PcrInfoLong(tag, atCreation, atRelease, c.v, s.v, d.v.0, d.v.1), d.pos)
  }

  function GetPcrInfoLong(buf: seq<byte>, pos: nat, max: nat): (r: Parsed<PcrInfoLong>)
    requires pos <= max <= |buf| && max < LIMIT
    ensures r.Got? ==> r.pos <= max
  {
    var tag := GetU16(buf, pos, max);
    if tag.Fail? then Fail
    else
      var c := GetU8(buf, tag.pos, max);
      if c.Fail? then Fail
      else
        var s := GetU8(buf, c.pos, max);
        if s.Fail? then Fail else GetLongTail(buf, s.pos, max, tag.v, c.v, s.v)
  }

  lemma LongTailReads(buf: seq<byte>, pos: nat, max: nat, p: PcrInfoLong)
    requires PcrInfoLongOk(p) && Agree(buf, pos, max, LongTail(p))
    ensures Reads(GetLongTail(buf, pos, max, p.tag, p.localityAtCreation, p.localityAtRelease), pos, max, LongTail(p),
            p)
  {
    hide Agree, Selection, GetSelection, GetDigests;
    AgreeIn(buf, pos, max, LongTail(p));
    var digests := p.digestAtCreation + p.digestAtRelease;
    AgreeSplit(buf, pos, max, Selection(p.creation), Selection(p.release) + digests);
    SelectionReads(buf, pos, max, p.creation);
    var next := pos + |Selection(p.creation)|;
    if next <= max {
      AgreeSplit(buf, next, max, Selection(p.release), digests);
      SelectionReads(buf, next, max, p.release);
      var last := next + |Selection(p.release)|;
      if last <= max {
        DigestsRead(buf, last, max, p.digestAtCreation, p.digestAtRelease);
      }
    }
  }

  lemma PcrInfoLongReads(buf: seq<byte>, pos: nat, max: nat, p: PcrInfoLong)
    requires PcrInfoLongOk(p) && Agree(buf, pos, max, PcrInfoLongBytes(p))
    ensures Reads(GetPcrInfoLong(buf, pos, max), pos, max, PcrInfoLongBytes(p), p)
  {
    hide Agree, U16, GetU16, GetU8, LongTail, GetLongTail;
    AgreeIn(buf, pos, max, PcrInfoLongBytes(p));
    AgreeSplit(buf, pos, max, U16(p.tag), U8(p.localityAtCreation) + (U8(p.localityAtRelease) + LongTail(p)));
    U16Reads(buf, pos, max, p.tag);
    if pos + 2 <= max {
      AgreeSplit(buf, pos + 2, max, U8(p.localityAtCreation), U8(p.localityAtRelease) + LongTail(p));
      U8Reads(buf, pos + 2, max, p.localityAtCreation);
      if pos + 3 <= max {
        AgreeSplit(buf, pos + 3, max, U8(p.localityAtRelease), LongTail(p));
        U8Reads(buf, pos + 3, max, p.localityAtRelease);
        if pos + 4 <= max {
          LongTailReads(buf, pos + 4, max, p);
        }
      }
    }
  }

  // ----- TPM_KEY -------------------------------------------------------------------------------------

  predicate KeyOk(k: Key) {
    && |k.ver| == 4 && k.usage < 0x1_0000 && k.flags < WORD && k.auth < 0x100 && KeyParmsOk(k.parms)
    && k.pcrSize < WORD && (k.pcr.Some? <==> k.pcrSize != 0) && (k.pcr.Some? ==> PcrInfoOk(k.pcr.value))
    && |k.pub| < WORD && |k.enc| < WORD
  }

  function OptPcr(k: Key): seq<byte>
    requires KeyOk(k)
  {
    if k.pcr.Some? then PcrInfoBytes(k.pcr.value) else []
  }

  function KeyTail(k: Key): seq<byte>
    requires KeyOk(k)
  {
    U32(k.pcrSize) + (OptPcr(k) + (Blob(k.pub) + Blob(k.enc)))
  }

  function KeyBytes(k: Key): seq<byte>
    requires KeyOk(k)
  {
    k.ver + (U16(k.usage) + (U32(k.flags) + (U8(k.auth) + (KeyParmsBytes(k.parms) + KeyTail(k)))))
  }

  function GetOptPcr(buf: seq<byte>, pos: nat, max: nat, size: nat): (r: Parsed<Option<PcrInfo>>)
    requires pos <= max <= |buf| && max < LIMIT
    ensures r.Got? ==> r.pos <= max
  {
    if size == 0 then Got(None, pos)
    else
      var p := GetPcrInfo(buf, pos, max);
      if p.Fail? then Fail else Got(Some(p.v), p.pos)
  }

  function GetTwoBlobs(buf: seq<byte>, pos: nat, max: nat): (r: Parsed<(seq<byte>, seq<byte>)>)
    requires pos <= max <= |buf| && max < LIMIT
    ensures r.Got? ==> r.pos <= max
  {
    var a := GetBlob(buf, pos, max);
    if a.Fail? then Fail
    else
      var b := GetBlob(buf, a.pos, max);
      if b.Fail? then Fail else Got((a.v, b.v), b.pos)
  }

  /** The fields behind the key parameters, onto the ones before them. */
  function GetKeyTail(buf: seq<byte>, pos: nat, max: nat, k: Key): (r: Parsed<Key>)
    requires pos <= max <= |buf| && max < LIMIT
    ensures r.Got? ==> r.pos <= max
  {
    var size := GetU32(buf, pos, max);
    if size.Fail? then Fail
    else
      var pcr := GetOptPcr(buf, size.pos, max, size.v);
      if pcr.Fail? then Fail
      else
        var b := GetTwoBlobs(buf, pcr.pos, max);
        if b.Fail? then Fail else Got(k.(pcrSize := size.v, pcr := pcr.v, pub := b.v.0, enc := b.v.1), b.pos)
  }

  function GetKey(buf: seq<byte>, pos: nat, max: nat): (r: Parsed<Key>)
    requires pos <= max <= |buf| && max < LIMIT
    ensures r.Got? ==> r.pos <= max
  {
    var ver := GetBytes(buf, pos, max, 4);
    if ver.Fail? then Fail
    else
      var usage := GetU16(buf, ver.pos, max);
      if usage.Fail? then Fail
      else
        var flags := GetU32(buf, usage.pos, max);
        if flags.Fail? then Fail
        else
          var auth := GetU8(buf, flags.pos, max);
          if auth.Fail? then Fail
          else
            var parms := GetKeyParms(buf, auth.pos, max);
            if parms.Fail? then Fail
            else GetKeyTail(buf, parms.pos, max, Key(ver.v, usage.v, flags.v, auth.v, parms.v, 0, None, [], []))
  }

  lemma TwoBlobsRead(buf: seq<byte>, pos: nat, max: nat, a: seq<byte>, b: seq<byte>)
    requires |a| < WORD && |b| < WORD && Agree(buf, pos, max, Blob(a) + Blob(b))
    ensures Reads(GetTwoBlobs(buf, pos, max), pos, max, Blob(a) + Blob(b), (a, b))
  {
    hide Agree, Blob, GetBlob;
    AgreeIn(buf, pos, max, Blob(a) + Blob(b));
    AgreeSplit(buf, pos, max, Blob(a), Blob(b));
    BlobReads(buf, pos, max, a);
    if pos + |Blob(a)| <= max {
      BlobReads(buf, pos + |Blob(a)|, max, b);
    }
  }

  lemma OptPcrReads(buf: seq<byte>, pos: nat, max: nat, k: Key)
    requires KeyOk(k) && Agree(buf, pos, max, OptPcr(k))
    ensures Reads(GetOptPcr(buf, pos, max, k.pcrSize), pos, max, OptPcr(k), k.pcr)
  {
    if k.pcr.Some? {
      hide Agree, PcrInfoBytes, GetPcrInfo;
      AgreeIn(buf, pos, max, OptPcr(k));
      PcrInfoReads(buf, pos, max, k.pcr.value);
    }
  }

  lemma KeyTailReads(buf: seq<byte>, pos: nat, max: nat, k: Key, head: Key)
    requires KeyOk(k) && Agree(buf, pos, max, KeyTail(k))
    requires k == head.(pcrSize := k.pcrSize, pcr := k.pcr, pub := k.pub, enc := k.enc)
    ensures Reads(GetKeyTail(buf, pos, max, head), pos, max, KeyTail(k), k)
  {
    hide Agree, U32, GetU32, OptPcr, GetOptPcr, GetTwoBlobs, Blob;
    AgreeIn(buf, pos, max, KeyTail(k));
    var blobs := Blob(k.pub) + Blob(k.enc);
    AgreeSplit(buf, pos, max, U32(k.pcrSize), OptPcr(k) + blobs);
    U32Reads(buf, pos, max, k.pcrSize);
    if pos + 4 <= max {
      AgreeSplit(buf, pos + 4, max, OptPcr(k), blobs);
      OptPcrReads(buf, pos + 4, max, k);
      var next := pos + 4 + |OptPcr(k)|;
      if next <= max {
        TwoBlobsRead(buf, next, max, k.pub, k.enc);
      }
    }
  }

  /** Unpacking a packed key gives it back and stops right behind it; cut short anywhere, it is refused. */
  lemma KeyRoundTrip(buf: seq<byte>, pos: nat, max: nat, k: Key)
    requires KeyOk(k) && Agree(buf, pos, max, KeyBytes(k))
    ensures Reads(GetKey(buf, pos, max), pos, max, KeyBytes(k), k)
  {
    hide Agree, U32, GetU32, U16, GetU16, GetU8, GetBytes, KeyParmsBytes, GetKeyParms, KeyTail, GetKeyTail, KeyParmsOk;
    AgreeIn(buf, pos, max, KeyBytes(k));
    var rest := KeyParmsBytes(k.parms) + KeyTail(k);
    AgreeSplit(buf, pos, max, k.ver, U16(k.usage) + (U32(k.flags) + (U8(k.auth) + rest)));
    BytesRead(buf, pos, max, k.ver);
    if pos + 4 <= max {
      AgreeSplit(buf, pos + 4, max, U16(k.usage), U32(k.flags) + (U8(k.auth) + rest));
      U16Reads(buf, pos + 4, max, k.usage);
      if pos + 6 <= max {
        AgreeSplit(buf, pos + 6, max, U32(k.flags), U8(k.auth) + rest);
        U32Reads(buf, pos + 6, max, k.flags);
        if pos + 10 <= max {
          AgreeSplit(buf, pos + 10, max, U8(k.auth), rest);
          U8Reads(buf, pos + 10, max, k.auth);
          if pos + 11 <= max {
            AgreeSplit(buf, pos + 11, max, KeyParmsBytes(k.parms), KeyTail(k));
            KeyParmsRead(buf, pos + 11, max, k.parms);
            var next := pos + 11 + |KeyParmsBytes(k.parms)|;
            if next <= max {
              KeyTailReads(buf, next, max, k, Key(k.ver, k.usage, k.flags, k.auth, k.parms, 0, None, [], []));
            }
          }
        }
      }
    }
  }

  // ----- TPM_STORED_DATA12 ---------------------------------------------------------------------------

  predicate StoredOk(d: StoredData) {
    && d.tag < 0x1_0000 && d.et < 0x1_0000 && d.sealSize < WORD && (d.seal.Some? <==> d.sealSize != 0)
    && (d.seal.Some? ==> PcrInfoLongOk(d.seal.value)) && |d.enc| < WORD
  }

  function OptSeal(d: StoredData): seq<byte>
    requires StoredOk(d)
  {
    if d.seal.Some? then PcrInfoLongBytes(d.seal.value) else []
  }

  function StoredBytes(d: StoredData): seq<byte>
    requires StoredOk(d)
  {
    U16(d.tag) + (U16(d.et) + (U32(d.sealSize) + (OptSeal(d) + Blob(d.enc))))
  }

  function GetOptSeal(buf: seq<byte>, pos: nat, max: nat, size: nat): (r: Parsed<Option<PcrInfoLong>>)
    requires pos <= max <= |buf| && max < LIMIT
    ensures r.Got? ==> r.pos <= max
  {
    if size == 0 then Got(None, pos)
    else
      var p := GetPcrInfoLong(buf, pos, max);
      if p.Fail? then Fail else Got(Some(p.v), p.pos)
  }

  function GetStored(buf: seq<byte>, pos: nat, max: nat): (r: Parsed<StoredData>)
    requires pos <= max <= |buf| && max < LIMIT
    ensures r.Got? ==> r.pos <= max
  {
    var tag := GetU16(buf, pos, max);
    if tag.Fail? then Fail
    else
      var et := GetU16(buf, tag.pos, max);
      if et.Fail? then Fail
      else
        var size := GetU32(buf, et.pos, max);
        if size.Fail? then Fail
        else
          var seal := GetOptSeal(buf, size.pos, max, size.v);
          if seal.Fail? then Fail
          else
            var enc := GetBlob(buf, seal.pos, max);
            if enc.Fail? then Fail else Got(StoredData(tag.v, et.v, size.v, seal.v, enc.v), enc.pos)
  }

  lemma OptSealReads(buf: seq<byte>, pos: nat, max: nat, d: StoredData)
    requires StoredOk(d) && Agree(buf, pos, max, OptSeal(d))
    ensures Reads(GetOptSeal(buf, pos, max, d.sealSize), pos, max, OptSeal(d), d.seal)
  {
    if d.seal.Some? {
      hide Agree, PcrInfoLongBytes, GetPcrInfoLong;
      AgreeIn(buf, pos, max, OptSeal(d));
      PcrInfoLongReads(buf, pos, max, d.seal.value);
    }
  }

  lemma StoredRoundTrip(buf: seq<byte>, pos: nat, max: nat, d: StoredData)
    requires StoredOk(d) && Agree(buf, pos, max, StoredBytes(d))
    ensures Reads(GetStored(buf, pos, max), pos, max, StoredBytes(d), d)
  {
    hide Agree, U32, GetU32, U16, GetU16, OptSeal, GetOptSeal, Blob, GetBlob;
    AgreeIn(buf, pos, max, StoredBytes(d));
    AgreeSplit(buf, pos, max, U16(d.tag), U16(d.et) + (U32(d.sealSize) + (OptSeal(d) + Blob(d.enc))));
    U16Reads(buf, pos, max, d.tag);
    if pos + 2 <= max {
      AgreeSplit(buf, pos + 2, max, U16(d.et), U32(d.sealSize) + (OptSeal(d) + Blob(d.enc)));
      U16Reads(buf, pos + 2, max, d.et);
      if pos + 4 <= max {
        AgreeSplit(buf, pos + 4, max, U32(d.sealSize), OptSeal(d) + Blob(d.enc));
        U32Reads(buf, pos + 4, max, d.sealSize);
        if pos + 8 <= max {
          AgreeSplit(buf, pos + 8, max, OptSeal(d), Blob(d.enc));
          OptSealReads(buf, pos + 8, max, d);
          var next := pos + 8 + |OptSeal(d)|;
          if next <= max {
            BlobReads(buf, next, max, d.enc);
          }
        }
      }
    }
  }

  // ----- sizeof_ -------------------------------------------------------------------------------------

  function SizeofKeyParms(k: KeyParms): nat {
    4 + 2 + 2 + 4 +
    match k.parms
    case NoParms => 0
    case Rsa(_, _, v) => 12 + |v|
    case Sym(_, _, v) => 12 + |v|
  }

  function SizeofKey(k: Key): nat {
    4 + 2 + 4 + 1 + SizeofKeyParms(k.parms) + 4 + (if k.pcr.Some? then 2 + |k.pcr.value.selection| + 2 * DIGEST else 0)
    + 4 + |k.pub| + 4 + |k.enc|
  }

  function SizeofStored(d: StoredData): nat {
    2 + 2 + 4
        + (if d.seal.Some? then 2 + 1 + 1 + 2 + |d.seal.value.creation| + 2 + |d.seal.value.release| + 2 * DIGEST
            else 0)
    + 4 + |d.enc|
  }

  lemma KeySize(k: Key)
    requires KeyOk(k)
    ensures |KeyBytes(k)| == SizeofKey(k)
  {
    assert |KeyParmsBytes(k.parms)| == SizeofKeyParms(k.parms);
  }

  lemma StoredSize(d: StoredData)
    requires StoredOk(d)
    ensures |StoredBytes(d)| == SizeofStored(d)
  {}
}
