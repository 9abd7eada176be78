/** Where the fields of packed TPM structures lie, and in which byte order. */
module MarshalLayout {
  import opened Arith
  import opened Wrappers
  import opened Bytes
  import opened Marshal
  import opened MarshalKey

  /** The number that bytes stand for, most significant first. */
  function Number(b: seq<byte>): nat {
    if b == [] then 0 else 256 * Number(b[..|b| - 1]) + b[|b| - 1] as nat
  }

  lemma NumberOfTwo(b: seq<byte>)
    requires |b| == 2
    ensures Number(b) == 256 * b[0] as nat + b[1] as nat
  {
    assert b[..1] == [b[0]] && b[..1][..0] == [];
    assert Number(b[..1]) == b[0] as nat;
  }

  lemma NumberOfFour(b: seq<byte>)
    requires |b| == 4
    ensures Number(b) == 0x1_0000 * Number(b[..2]) + Number(b[2..])
  {
    NumberOfTwo(b[..2]);
    NumberOfTwo(b[2..]);
    assert b[..3][..2] == b[..2] && b[..3][2] == b[2];
    assert Number(b[..3]) == 256 * Number(b[..2]) + b[2] as nat;
  }

  /** Numbers are packed big-endian. */
  lemma BigEndian(v: nat)
    ensures v < 0x100 ==> |U8(v)| == 1 && Number(U8(v)) == v
    ensures v < 0x1_0000 ==> |U16(v)| == 2 && Number(U16(v)) == v
    ensures v < WORD ==> |U32(v)| == 4 && Number(U32(v)) == v
  {
    if v < 0x100 {
      assert U8(v)[..0] == [];
    }
    if v < 0x1_0000 {
      NumberOfTwo(U16(v));
    }
    if v < WORD {
      NumberOfFour(U32(v));
      NumberOfTwo(U16(v / 0x1_0000));
      NumberOfTwo(U16(v % 0x1_0000));
      assert U32(v)[..2] == U16(v / 0x1_0000) && U32(v)[2..] == U16(v % 0x1_0000);
    }
  }

  /** And unpacked so, or refused when they do not lie before `max`. */
  lemma BigEndianRead(buf: seq<byte>, pos: nat, max: nat)
    requires pos <= max <= |buf| && max < LIMIT
    ensures GetU8(buf, pos, max) == if pos + 1 <= max then Got(buf[pos] as nat, pos + 1) else Fail
    ensures GetU16(buf, pos, max) == if pos + 2 <= max then Got(Number(buf[pos..pos + 2]), pos + 2) else Fail
    ensures GetU32(buf, pos, max) == if pos + 4 <= max then Got(Number(buf[pos..pos + 4]), pos + 4) else Fail
  {
    if pos + 2 <= max {
      NumberOfTwo(buf[pos..pos + 2]);
    }
    if pos + 4 <= max {
      var b := buf[pos..pos + 4];
      NumberOfFour(b);
      NumberOfTwo(b[..2]);
      NumberOfTwo(b[2..]);
    }
  }

  // ----- Fields at offsets -------------------------------------------------------------------------------------

  /** The field `e` lies at offset `at`. */
  ghost predicate Sits(b: seq<byte>, at: nat, e: seq<byte>) {
    at + |e| <= |b| && b[at..at + |e|] == e
  }

  /** The number `v` lies there, in n bytes. */
  ghost predicate NumberAt(b: seq<byte>, at: nat, n: nat, v: nat) {
    at + n <= |b| && Number(b[at..at + n]) == v
  }

  lemma SitsHere(a: seq<byte>, b: seq<byte>)
    ensures Sits(a + b, 0, a) && Sits(a + b, |a|, b)
  {}

  lemma SitsWithin(b: seq<byte>, at: nat, e: seq<byte>, at': nat, e': seq<byte>)
    requires Sits(b, at, e) && Sits(e, at', e')
    ensures Sits(b, at + at', e')
  {
    forall i | 0 <= i < |e'|
      ensures b[at + at' + i] == e'[i]
    {
      assert e[at'..at' + |e'|][i] == e[at' + i] && b[at..at + |e|][at' + i] == b[at + (at' + i)];
    }
  }

  /** The two parts of a field are fields. */
  lemma SitsParts(b: seq<byte>, at: nat, a: seq<byte>, rest: seq<byte>)
    requires Sits(b, at, a + rest)
    ensures Sits(b, at, a) && Sits(b, at + |a|, rest)
  {
    SitsHere(a, rest);
    SitsWithin(b, at, a + rest, 0, a);
    SitsWithin(b, at, a + rest, |a|, rest);
  }

  lemma NumberSits(b: seq<byte>, at: nat, v: nat)
    ensures v < 0x100 && Sits(b, at, U8(v)) ==> NumberAt(b, at, 1, v)
    ensures v < 0x1_0000 && Sits(b, at, U16(v)) ==> NumberAt(b, at, 2, v)
    ensures v < WORD && Sits(b, at, U32(v)) ==> NumberAt(b, at, 4, v)
  {
    hide U16, U32, Number;
    BigEndian(v);
  }

  /** A 16-bit number at the head of a field. */
  lemma Front16(b: seq<byte>, at: nat, v: nat, rest: seq<byte>)
    requires v < 0x1_0000 && Sits(b, at, U16(v) + rest)
    ensures NumberAt(b, at, 2, v) && Sits(b, at + 2, rest)
  {
    hide U16, Sits, NumberAt;
    SitsParts(b, at, U16(v), rest);
    NumberSits(b, at, v);
  }

  lemma Front32(b: seq<byte>, at: nat, v: nat, rest: seq<byte>)
    requires v < WORD && Sits(b, at, U32(v) + rest)
    ensures NumberAt(b, at, 4, v) && Sits(b, at + 4, rest)
  {
    hide U32, Sits, NumberAt;
    SitsParts(b, at, U32(v), rest);
    NumberSits(b, at, v);
  }

  lemma Front8(b: seq<byte>, at: nat, v: nat, rest: seq<byte>)
    requires v < 0x100 && Sits(b, at, U8(v) + rest)
    ensures NumberAt(b, at, 1, v) && Sits(b, at + 1, rest)
  {
    hide Sits, NumberAt;
    SitsParts(b, at, U8(v), rest);
    NumberSits(b, at, v);
  }

  /** A length in n bytes and that many bytes behind it. */
  ghost predicate SizedAt(b: seq<byte>, at: nat, n: nat, v: seq<byte>) {
    NumberAt(b, at, n, |v|) && Sits(b, at + n, v)
  }

  // ----- TPM_KEY_PARMS, TPM_PCR_INFO, TPM_PCR_INFO_LONG ------------------------------------------------------

  /** Two numbers and a sized string, or nothing. */
  ghost predicate ParmsAt(b: seq<byte>, at: nat, p: Parms) {
    match p
    case NoParms => true
    case Rsa(keyLength, numPrimes, exponent) =>
      NumberAt(b, at, 4, keyLength) && NumberAt(b, at + 4, 4, numPrimes) && SizedAt(b, at + 8, 4, exponent)
    case Sym(keyBits, blockSize, iv) =>
      NumberAt(b, at, 4, keyBits) && NumberAt(b, at + 4, 4, blockSize) && SizedAt(b, at + 8, 4, iv)
  }

  function ParmsLength(p: Parms): nat {
    match p
    case NoParms => 0
    case Rsa(_, _, exponent) => 12 + |exponent|
    case Sym(_, _, iv) => 12 + |iv|
  }

  lemma TripleLies(b: seq<byte>, at: nat, x: nat, y: nat, v: seq<byte>)
    requires TripleOk(x, y, v) && Sits(b, at, Triple(x, y, v))
    ensures NumberAt(b, at, 4, x) && NumberAt(b, at + 4, 4, y) && SizedAt(b, at + 8, 4, v)
    ensures |Triple(x, y, v)| == 12 + |v|
  {
    hide U32, Sits, NumberAt;
    Front32(b, at, x, U32(y) + Blob(v));
    Front32(b, at + 4, y, Blob(v));
    Front32(b, at + 8, |v|, v);
  }

  /** TPM_KEY_PARMS: algorithm, encryption and signature scheme, size and parameters. */
  ghost predicate KeyParmsAt(b: seq<byte>, at: nat, k: KeyParms) {
    && NumberAt(b, at, 4, k.alg) && NumberAt(b, at + 4, 2, k.enc) && NumberAt(b, at + 6, 2, k.sig)
    && NumberAt(b, at + 8, 4, k.parmSize) && ParmsAt(b, at + 12, k.parms)
  }

  lemma KeyParmsLie(b: seq<byte>, at: nat, k: KeyParms)
    requires KeyParmsOk(k) && Sits(b, at, KeyParmsBytes(k))
    ensures KeyParmsAt(b, at, k) && |KeyParmsBytes(k)| == 12 + ParmsLength(k.parms)
  {
    hide U16, U32, Sits, NumberAt, Triple, SizedAt;
    var p := ParmsBytes(k.parms);
    Front32(b, at, k.alg, U16(k.enc) + (U16(k.sig) + (U32(k.parmSize) + p)));
    Front16(b, at + 4, k.enc, U16(k.sig) + (U32(k.parmSize) + p));
    Front16(b, at + 6, k.sig, U32(k.parmSize) + p);
    Front32(b, at + 8, k.parmSize, p);
    match k.parms {
      case NoParms =>
      case Rsa(x, y, v) => TripleLies(b, at + 12, x, y, v);
      case Sym(x, y, v) => TripleLies(b, at + 12, x, y, v);
    }
  }

  /** TPM_PCR_INFO: selection, digest at release, digest at creation. */
  ghost predicate PcrInfoAt(b: seq<byte>, at: nat, p: PcrInfo) {
    var n := |p.selection|;
    SizedAt(b, at, 2, p.selection) && Sits(b, at + 2 + n, p.atRelease) && Sits(b, at + 22 + n, p.atCreation)
  }

  lemma PcrInfoLies(b: seq<byte>, at: nat, p: PcrInfo)
    requires PcrInfoOk(p) && Sits(b, at, PcrInfoBytes(p))
    ensures PcrInfoAt(b, at, p) && |PcrInfoBytes(p)| == 42 + |p.selection|
  {
    hide U16, Sits, NumberAt;
    var n := |p.selection|;
    SitsParts(b, at, Selection(p.selection), p.atRelease + p.atCreation);
    Front16(b, at, n, p.selection);
    SitsParts(b, at + 2 + n, p.atRelease, p.atCreation);
  }

  /** TPM_PCR_INFO_LONG: tag, localities at creation and release, selections and digests in the same order. */
  ghost predicate PcrInfoLongAt(b: seq<byte>, at: nat, p: PcrInfoLong) {
    var c := |p.creation|;
    var n := c + |p.release|;
    && NumberAt(b, at, 2, p.tag) && NumberAt(b, at + 2, 1, p.localityAtCreation)
    && NumberAt(b, at + 3, 1, p.localityAtRelease)
    && SizedAt(b, at + 4, 2, p.creation) && SizedAt(b, at + 6 + c, 2, p.release)
    && Sits(b, at + 8 + n, p.digestAtCreation) && Sits(b, at + 28 + n, p.digestAtRelease)
  }

  lemma PcrInfoLongLies(b: seq<byte>, at: nat, p: PcrInfoLong)
    requires PcrInfoLongOk(p) && Sits(b, at, PcrInfoLongBytes(p))
    ensures PcrInfoLongAt(b, at, p) && |PcrInfoLongBytes(p)| == 48 + |p.creation| + |p.release|
  {
    hide U16, Sits, NumberAt;
    var tail, digests := LongTail(p), p.digestAtCreation + p.digestAtRelease;
    Front16(b, at, p.tag, U8(p.localityAtCreation) + (U8(p.localityAtRelease) + tail));
    Front8(b, at + 2, p.localityAtCreation, U8(p.localityAtRelease) + tail);
    Front8(b, at + 3, p.localityAtRelease, tail);
    var c, r := |p.creation|, |p.release|;
    SitsParts(b, at + 4, Selection(p.creation), Selection(p.release) + digests);
    Front16(b, at + 4, c, p.creation);
    SitsParts(b, at + 6 + c, Selection(p.release), digests);
    Front16(b, at + 6 + c, r, p.release);
    SitsParts(b, at + 8 + c + r, p.digestAtCreation, p.digestAtRelease);
  }

  // ----- TPM_KEY and TPM_STORED_DATA12 ------------------------------------------------------------------------

  /** A packed TPM_KEY: version, usage, flags and authorisation in 11 bytes, the key parameters, the size of the PCR
      information and, unless it is 0, the information, then public and encrypted part, each behind its size. */
  ghost predicate KeyLaidOut(b: seq<byte>, k: Key) {
    var tail := 23 + ParmsLength(k.parms.parms);
    var blobs := tail + 4 + if k.pcrSize != 0 && k.pcr.Some? then 42 + |k.pcr.value.selection| else 0;
    && Sits(b, 0, k.ver) && NumberAt(b, 4, 2, k.usage) && NumberAt(b, 6, 4, k.flags) && NumberAt(b, 10, 1, k.auth)
    && KeyParmsAt(b, 11, k.parms) && NumberAt(b, tail, 4, k.pcrSize)
    && (k.pcrSize != 0 ==> k.pcr.Some? && PcrInfoAt(b, tail + 4, k.pcr.value))
    && SizedAt(b, blobs, 4, k.pub) && SizedAt(b, blobs + 4 + |k.pub|, 4, k.enc)
    && |b| == blobs + 8 + |k.pub| + |k.enc|
  }

  lemma KeyLayout(k: Key)
    requires KeyOk(k)
    ensures KeyLaidOut(KeyBytes(k), k)
  {
    hide U16, U32, Sits, NumberAt, KeyParmsBytes, KeyParmsAt, KeyTail, KeyParmsOk;
    var b, parms, tail := KeyBytes(k), KeyParmsBytes(k.parms), KeyTail(k);
    WholeSits(b);
    SitsParts(b, 0, k.ver, U16(k.usage) + (U32(k.flags) + (U8(k.auth) + (parms + tail))));
    Front16(b, 4, k.usage, U32(k.flags) + (U8(k.auth) + (parms + tail)));
    Front32(b, 6, k.flags, U8(k.auth) + (parms + tail));
    Front8(b, 10, k.auth, parms + tail);
    SitsParts(b, 11, parms, tail);
    KeyParmsLie(b, 11, k.parms);
    KeyTailLies(b, 11 + |parms|, k);
  }

  lemma WholeSits(b: seq<byte>)
    ensures Sits(b, 0, b)
  {}

  lemma KeyTailLies(b: seq<byte>, at: nat, k: Key)
    requires KeyOk(k) && Sits(b, at, KeyTail(k))
    ensures var blobs := at + 4 + if k.pcrSize != 0 && k.pcr.Some? then 42 + |k.pcr.value.selection| else 0;
            && NumberAt(b, at, 4, k.pcrSize)
            && (k.pcrSize != 0 ==> k.pcr.Some? && PcrInfoAt(b, at + 4, k.pcr.value))
            && SizedAt(b, blobs, 4, k.pub) && SizedAt(b, blobs + 4 + |k.pub|, 4, k.enc)
            && at + |KeyTail(k)| == blobs + 8 + |k.pub| + |k.enc|
  {
    hide U32, Sits, NumberAt, PcrInfoAt, PcrInfoBytes, KeyParmsOk;
    var blobs := Blob(k.pub) + Blob(k.enc);
    Front32(b, at, k.pcrSize, OptPcr(k) + blobs);
    SitsParts(b, at + 4, OptPcr(k), blobs);
    if k.pcr.Some? {
      PcrInfoLies(b, at + 4, k.pcr.value);
    }
    var p := at + 4 + |OptPcr(k)|;
    SitsParts(b, p, Blob(k.pub), Blob(k.enc));
    Front32(b, p, |k.pub|, k.pub);
    Front32(b, p + 4 + |k.pub|, |k.enc|, k.enc);
  }

  /** A packed TPM_STORED_DATA12: tag, entity type, the size of the seal information and, unless it is 0, the
      information, then the encrypted part behind its size. */
  ghost predicate StoredLaidOut(b: seq<byte>, d: StoredData) {
    var enc := 8 + if d.sealSize != 0 && d.seal.Some? then 48 + |d.seal.value.creation| + |d.seal.value.release| else 0;
    && NumberAt(b, 0, 2, d.tag) && NumberAt(b, 2, 2, d.et) && NumberAt(b, 4, 4, d.sealSize)
    && (d.sealSize != 0 ==> d.seal.Some? && PcrInfoLongAt(b, 8, d.seal.value))
    && SizedAt(b, enc, 4, d.enc) && |b| == enc + 4 + |d.enc|
  }

  lemma StoredLayout(d: StoredData)
    requires StoredOk(d)
    ensures StoredLaidOut(StoredBytes(d), d)
  {
    hide U16, U32, Sits, NumberAt, PcrInfoLongAt, PcrInfoLongBytes;
    var b, seal, enc := StoredBytes(d), OptSeal(d), Blob(d.enc);
    WholeSits(b);
    Front16(b, 0, d.tag, U16(d.et) + (U32(d.sealSize) + (seal + enc)));
    Front16(b, 2, d.et, U32(d.sealSize) + (seal + enc));
    Front32(b, 4, d.sealSize, seal + enc);
    SitsParts(b, 8, seal, enc);
    if d.seal.Some? {
      PcrInfoLongLies(b, 8, d.seal.value);
    }
    Front32(b, 8 + |seal|, |d.enc|, d.enc);
  }
}
