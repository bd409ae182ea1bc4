/** A transaction as bytes: header, attachment, appendix, and a buffer measured beforehand. */
module TransactionBytes {
  import opened LittleEndian
  import opened Options
  import opened Encoding
  import opened Attachments

  datatype Header = Header(version: nat, timestamp: nat, deadline: nat, senderPublicKey: seq<byte>, recipient: nat,
                           amount: nat, fee: nat, referencedHash: seq<byte>, signature: seq<byte>,
                           ecBlockHeight: nat, ecBlockId: nat)

  datatype Message = Message(isText: bool, content: seq<byte>)

  datatype Encrypted = Encrypted(isText: bool, data: seq<byte>, nonce: seq<byte>)

  datatype Appendix = Appendix(message: Option<Message>, encrypted: Option<Encrypted>, publicKey: Option<seq<byte>>,
                               toSelf: Option<Encrypted>)

  /** The attachments modelled here; a type number is a kind in the low byte and a subtype above it. */
  datatype Attachment = CreationOf(creation: Creation) | DeliveryOf(delivery: Delivery)

  function TypeOf(a: Attachment): nat
  {
    if a.CreationOf? then 22 else 5 * 256 + 3
  }

  ghost function AttachmentBytes(a: Attachment): seq<byte>
  {
    match a case CreationOf(c) => CreationBytes(c) case DeliveryOf(d) => DeliveryBytes(d)
  }

  // ---------- what is written ----------

  ghost function FrontBytes(h: Header, txType: nat): seq<byte>
  {
    Bytes(txType + h.version % 16 * 4096, 2) + Bytes(h.timestamp, 4) + Bytes(h.deadline, 2) + h.senderPublicKey
  }

  ghost function AmountBytes(h: Header): seq<byte>
  {
    Bytes(h.recipient, 8) + Bytes(h.amount, 8) + Bytes(h.fee, 8)
  }

  ghost function HashBytes(h: Header): seq<byte>
  {
    if h.referencedHash == [] then seq(32, _ => 0) else h.referencedHash
  }

  ghost function ChainBytes(h: Header, flags: nat, txType: nat): seq<byte>
  {
    if h.version == 0 then []
    else Bytes(flags, 4) + Bytes(h.ecBlockHeight, 4) + Bytes(h.ecBlockId, 8)
         + (if txType != 0 && txType != 1 then Bytes(h.version, 1) else [])
  }

  ghost function HeaderBytes(h: Header, flags: nat, txType: nat): seq<byte>
  {
    FrontBytes(h, txType) + AmountBytes(h) + (HashBytes(h) + h.signature) + ChainBytes(h, flags, txType)
  }

  ghost function VersionByte(version: nat): seq<byte>
  {
    if version > 0 then Bytes(version, 1) else []
  }

  ghost function MessageBytes(m: Message): seq<byte>
    requires m.isText || IsHex(m.content)
  {
    Bytes(LengthField(m.isText, if m.isText then |m.content| else |m.content| / 2), 4)
    + (if m.isText then m.content else HexDecode(m.content))
  }

  ghost function EncryptedBytes(m: Encrypted): seq<byte>
    requires m.isText || IsHex(m.data)
  {
    Bytes(LengthField(m.isText, |m.data|), 4)
    + (if m.isText then m.data else HexDecode(m.data) + seq(|m.data| / 2, _ => 0)) + m.nonce
  }

  ghost predicate Writable(a: Appendix)
  {
    && (a.message.Some? ==> a.message.value.isText || IsHex(a.message.value.content))
    && (a.encrypted.Some? ==> a.encrypted.value.isText || IsHex(a.encrypted.value.data))
    && (a.toSelf.Some? ==> a.toSelf.value.isText || IsHex(a.toSelf.value.data))
  }

  ghost function MessagePart(m: Option<Message>, version: nat): seq<byte>
    requires m.Some? ==> m.value.isText || IsHex(m.value.content)
  {
    if m.Some? then VersionByte(version) + MessageBytes(m.value) else []
  }

  ghost function EncryptedPart(m: Option<Encrypted>, version: nat): seq<byte>
    requires m.Some? ==> m.value.isText || IsHex(m.value.data)
  {
    if m.Some? then VersionByte(version) + EncryptedBytes(m.value) else []
  }

  ghost function KeyPart(k: Option<seq<byte>>, version: nat): seq<byte>
  {
    if k.Some? then VersionByte(version) + k.value else []
  }

  ghost function AppendixBytes(a: Appendix, version: nat): seq<byte>
    requires Writable(a)
  {
    MessagePart(a.message, version) + EncryptedPart(a.encrypted, version) + KeyPart(a.publicKey, version)
    + EncryptedPart(a.toSelf, version)
  }

  // ---------- what is measured ----------

  function HeaderSizeInBytes(h: Header, txType: nat): nat
  {
    2 + 4 + 2 + 32 + 8 + 8 + 8 + 32 + 64
    + (if h.version > 0 then 4 + 4 + 8 + (if txType != 0 && txType != 1 then 1 else 0) else 0)
  }

  function AttachmentSizeInBytes(a: Attachment): nat
  {
    match a
    case CreationOf(c) => 1 + |c.name| + 2 + |c.description| + |c.bytes|
    case DeliveryOf(d) => 8 + 4 + |d.data| / 2 + |d.nonce| + 8
  }

  function EncryptedSize(m: Encrypted): nat
  {
    4 + (if m.isText then |m.data| else |m.data| / 2) + |m.nonce|
  }

  function AppendixSizeInBytes(a: Appendix, version: nat): nat
  {
    var v := if version > 0 then 1 else 0;
    (if a.message.Some? then
       4 + (if a.message.value.isText then |a.message.value.content| else |a.message.value.content| / 2) + v else 0)
    + (if a.encrypted.Some? then EncryptedSize(a.encrypted.value) + v else 0)
    + (if a.publicKey.Some? then |a.publicKey.value| + v else 0)
    + (if a.toSelf.Some? then EncryptedSize(a.toSelf.value) + v else 0)
  }

  function AppendixFlags(a: Appendix): (f: nat)
    ensures f < 16
  {
    (if a.message.Some? then 1 else 0) + (if a.encrypted.Some? then 2 else 0)
    + (if a.publicKey.Some? then 4 else 0) + (if a.toSelf.Some? then 8 else 0)
  }

  /** Each flag says whether its part is there. */
  lemma AppendixFlagsTell(a: Appendix)
    ensures var f := AppendixFlags(a);
            && (f % 2 == 1 <==> a.message.Some?) && (f / 2 % 2 == 1 <==> a.encrypted.Some?)
            && (f / 4 % 2 == 1 <==> a.publicKey.Some?) && (f / 8 == 1 <==> a.toSelf.Some?)
  {
  }

  // ---------- measure and content agree ----------

  /** The header is as long as measured exactly when key, hash and signature together take 128 bytes. */
  lemma HeaderFitsIff(h: Header, flags: nat, txType: nat)
    ensures |HeaderBytes(h, flags, txType)| == HeaderSizeInBytes(h, txType)
       <==> |h.senderPublicKey| + (if h.referencedHash == [] then 32 else |h.referencedHash|) + |h.signature| == 128
  {
    hide Bytes;
  }

  /** The attachment is as long as measured exactly when nothing cuts its writing short. */
  lemma AttachmentFitsIff(a: Attachment)
    ensures |AttachmentBytes(a)| == AttachmentSizeInBytes(a)
       <==> a.CreationOf? || IsHex(a.delivery.data)
  {
    hide Bytes, HexDecode, IsHex;
  }

  /** An encrypted part that is not text, and not empty, outgrows its measure. */
  predicate Oversized(m: Option<Encrypted>)
  {
    m.Some? && !m.value.isText && m.value.data != []
  }

  lemma EncryptedLength(m: Encrypted)
    requires m.isText || IsHex(m.data)
    ensures |EncryptedBytes(m)| == EncryptedSize(m) + (if m.isText then 0 else |m.data| / 2)
    ensures |EncryptedBytes(m)| == EncryptedSize(m) <==> !Oversized(Some(m))
  {
    hide Bytes, HexDecode;
  }

  /** The appendix is as long as measured exactly when no encrypted part is hexadecimal. */
  lemma AppendixFitsIff(a: Appendix, version: nat)
    requires Writable(a)
    ensures |AppendixBytes(a, version)| == AppendixSizeInBytes(a, version)
       <==> !Oversized(a.encrypted) && !Oversized(a.toSelf)
  {
    hide Bytes, HexDecode, IsHex, EncryptedPart, EncryptedSize, Oversized;
    PartLength(a.encrypted, version);
    PartLength(a.toSelf, version);
  }

  lemma PartLength(m: Option<Encrypted>, version: nat)
    requires m.Some? ==> m.value.isText || IsHex(m.value.data)
    ensures |EncryptedPart(m, version)| >= if m.Some? then EncryptedSize(m.value)
             + (if version > 0 then 1 else 0) else 0
    ensures |EncryptedPart(m, version)| == (if m.Some? then EncryptedSize(m.value)
             + (if version > 0 then 1 else 0) else 0)
       <==> !Oversized(m)
  {
    hide Bytes, HexDecode, EncryptedBytes;
    if m.Some? {
      EncryptedLength(m.value);
    }
  }

  /** An appendix with one encrypted byte in hexadecimal is written longer than it was measured. */
  lemma HexPartOutgrows(version: nat)
    ensures var a := Appendix(None, Some(Encrypted(false, [48, 48], [])), None, None);
            Writable(a) && |AppendixBytes(a, version)| == AppendixSizeInBytes(a, version) + 1
  {
    hide Bytes, HexDecode, LengthField;
    var m := Encrypted(false, [48, 48], []);
    assert IsHex(m.data);
    EncryptedLength(m);
  }

  // ---------- where the fields lie ----------

  ghost predicate Holds(bs: seq<byte>, at: nat, n: nat, v: nat)
  {
    at + n <= |bs| && Value(bs[at..at + n]) == v
  }

  ghost predicate Lies(bs: seq<byte>, at: nat, part: seq<byte>)
  {
    at + |part| <= |bs| && bs[at..at + |part|] == part
  }

  /** The header's fields, by offset; numbers are cut to their fields, as their types do. */
  ghost predicate HeaderLaid(bs: seq<byte>, h: Header, flags: nat, txType: nat)
  {
    && Holds(bs, 0, 2, (txType + h.version % 16 * 4096) % 0x1_0000)
    && Holds(bs, 2, 4, h.timestamp % 0x1_0000_0000) && Holds(bs, 6, 2, h.deadline % 0x1_0000)
    && Lies(bs, 8, h.senderPublicKey)
    && Holds(bs, 40, 8, h.recipient % 0x1_0000_0000_0000_0000)
    && Holds(bs, 48, 8, h.amount % 0x1_0000_0000_0000_0000)
    && Holds(bs, 56, 8, h.fee % 0x1_0000_0000_0000_0000)
    && (if h.referencedHash == [] then Lies(bs, 64, seq(32, _ => 0)) else Lies(bs, 64, h.referencedHash))
    && Lies(bs, 96, h.signature)
    && (h.version > 0 ==>
          && Holds(bs, 160, 4, flags % 0x1_0000_0000) && Holds(bs, 164, 4, h.ecBlockHeight % 0x1_0000_0000)
          && Holds(bs, 168, 8, h.ecBlockId % 0x1_0000_0000_0000_0000)
          && (txType != 0 && txType != 1 ==> Holds(bs, 176, 1, h.version % 256)))
  }

  lemma StartLies(part: seq<byte>, a: seq<byte>, b: seq<byte>)
    ensures Lies(part + a + b, 0, part)
  {
  }

  lemma FieldHolds(bs: seq<byte>, at: nat, v: nat, n: nat)
    requires Lies(bs, at, Bytes(v, n))
    ensures Holds(bs, at, n, v % Radix(n))
  {
    BytesModulo(v, n);
  }

  /** Parts of a part lie in the whole. */
  lemma LiesWithin(bs: seq<byte>, at: nat, a: seq<byte>, b: seq<byte>)
    requires Lies(bs, at, a + b)
    ensures Lies(bs, at, a) && Lies(bs, at + |a|, b)
  {
    assert bs[at..at + |a + b|][..|a|] == a;
    assert bs[at..at + |a + b|][|a|..] == b;
  }

  lemma FrontLies(bs: seq<byte>, h: Header, txType: nat)
    requires Lies(bs, 0, FrontBytes(h, txType)) && |h.senderPublicKey| == 32
    ensures Holds(bs, 0, 2, (txType + h.version % 16 * 4096) % Radix(2)) && Holds(bs, 2, 4, h.timestamp % Radix(4))
    ensures Holds(bs, 6, 2, h.deadline % Radix(2)) && Lies(bs, 8, h.senderPublicKey)
  {
    hide Bytes, Lies, Holds, Radix;
    var (a, b, c) := (Bytes(txType + h.version % 16 * 4096, 2), Bytes(h.timestamp, 4), Bytes(h.deadline, 2));
    LiesWithin(bs, 0, a + b + c, h.senderPublicKey);
    LiesWithin(bs, 0, a + b, c);
    LiesWithin(bs, 0, a, b);
    FieldHolds(bs, 0, txType + h.version % 16 * 4096, 2);
    FieldHolds(bs, 2, h.timestamp, 4);
    FieldHolds(bs, 6, h.deadline, 2);
  }

  lemma ThreeLie(bs: seq<byte>, at: nat, u: nat, v: nat, w: nat, m: nat, n: nat)
    requires Lies(bs, at, Bytes(u, m) + Bytes(v, m) + Bytes(w, n))
    ensures Holds(bs, at, m, u % Radix(m)) && Holds(bs, at + m, m, v % Radix(m))
    ensures Holds(bs, at + 2 * m, n, w % Radix(n))
  {
    hide Bytes, Lies, Holds, Radix;
    LiesWithin(bs, at, Bytes(u, m) + Bytes(v, m), Bytes(w, n));
    LiesWithin(bs, at, Bytes(u, m), Bytes(v, m));
    FieldHolds(bs, at, u, m);
    FieldHolds(bs, at + m, v, m);
    FieldHolds(bs, at + 2 * m, w, n);
  }

  lemma ChainLies(bs: seq<byte>, h: Header, flags: nat, txType: nat)
    requires h.version > 0 && Lies(bs, 160, ChainBytes(h, flags, txType))
    ensures Holds(bs, 160, 4, flags % Radix(4)) && Holds(bs, 164, 4, h.ecBlockHeight % Radix(4))
    ensures Holds(bs, 168, 8, h.ecBlockId % Radix(8))
    ensures txType != 0 && txType != 1 ==> Holds(bs, 176, 1, h.version % Radix(1))
  {
    hide Bytes, Lies, Holds, Radix;
    var w := if txType != 0 && txType != 1 then Bytes(h.version, 1) else [];
    LiesWithin(bs, 160, Bytes(flags, 4) + Bytes(h.ecBlockHeight, 4) + Bytes(h.ecBlockId, 8), w);
    ThreeLie(bs, 160, flags, h.ecBlockHeight, h.ecBlockId, 4, 8);
    if txType != 0 && txType != 1 {
      FieldHolds(bs, 176, h.version, 1);
    }
  }

  /** Every header whose key, hash and signature have their lengths is laid out like that, whatever follows it. */
  lemma HeaderLies(bs: seq<byte>, h: Header, flags: nat, txType: nat)
    requires |h.senderPublicKey| == 32 && |h.referencedHash| in {0, 32} && |h.signature| == 64
    requires Lies(bs, 0, HeaderBytes(h, flags, txType))
    ensures HeaderLaid(bs, h, flags, txType)
  {
    hide Lies, Holds, Radix, FrontBytes, AmountBytes, ChainBytes;
    var front, amount, proofs := FrontBytes(h, txType), AmountBytes(h), HashBytes(h) + h.signature;
    Widths(h, txType);
    LiesWithin(bs, 0, front + amount + proofs, ChainBytes(h, flags, txType));
    LiesWithin(bs, 0, front + amount, proofs);
    LiesWithin(bs, 0, front, amount);
    FrontLies(bs, h, txType);
    AmountLies(bs, h);
    LiesWithin(bs, 64, HashBytes(h), h.signature);
    if h.version > 0 {
      ChainLies(bs, h, flags, txType);
    }
    Radixes();
  }

  lemma Widths(h: Header, txType: nat)
    requires |h.senderPublicKey| == 32
    ensures |FrontBytes(h, txType)| == 40 && |AmountBytes(h)| == 24
  {
    hide Bytes;
  }

  lemma AmountLies(bs: seq<byte>, h: Header)
    requires Lies(bs, 40, AmountBytes(h))
    ensures Holds(bs, 40, 8, h.recipient % Radix(8)) && Holds(bs, 48, 8, h.amount % Radix(8))
    ensures Holds(bs, 56, 8, h.fee % Radix(8))
  {
    hide Bytes, Lies, Holds, Radix;
    ThreeLie(bs, 40, h.recipient, h.amount, h.fee, 8, 8);
  }

  /** A counted text behind its version byte. */
  ghost predicate TextLaid(bs: seq<byte>, at: nat, version: nat, text: seq<byte>)
  {
    Holds(bs, at, 1, version) && Holds(bs, at + 1, 4, 0x8000_0000 + |text|) && Lies(bs, at + 5, text)
  }

  lemma CountedLies(bs: seq<byte>, at: nat, version: nat, field: nat, part: seq<byte>, rest: seq<byte>)
    requires 0 < version < 256 && field < 0x1_0000_0000
    requires Lies(bs, at, VersionByte(version) + (Bytes(field, 4) + part) + rest)
    ensures Holds(bs, at, 1, version) && Holds(bs, at + 1, 4, field) && Lies(bs, at + 5, part)
    ensures Lies(bs, at + 5 + |part|, rest)
  {
    hide Bytes, Lies, Holds, Radix;
    var v, f := VersionByte(version), Bytes(field, 4);
    LiesWithin(bs, at, v + (f + part), rest);
    LiesWithin(bs, at, v, f + part);
    LiesWithin(bs, at + 1, f, part);
    FieldHolds(bs, at, version, 1);
    FieldHolds(bs, at + 1, field, 4);
    Radixes();
  }

  /** An appendix of four parts, texts where it can have texts: which follows which, and from where. */
  lemma AppendixLies(version: nat, text: seq<byte>, secret: Encrypted, key: seq<byte>, own: Encrypted, p: nat, q: nat)
    requires 0 < version < 256 && secret.isText && own.isText
    requires |text| < 0x8000_0000 && |secret.data| < 0x8000_0000 && |own.data| < 0x8000_0000
    requires p == 5 + |text| && q == p + 5 + |secret.data| + |secret.nonce|
    ensures var a := Appendix(Some(Message(true, text)), Some(secret), Some(key), Some(own));
            var bs := AppendixBytes(a, version);
            && TextLaid(bs, 0, version, text)
            && TextLaid(bs, p, version, secret.data) && Lies(bs, p + 5 + |secret.data|, secret.nonce)
            && Holds(bs, q, 1, version) && Lies(bs, q + 1, key)
            && TextLaid(bs, q + 1 + |key|, version, own.data)
            && Lies(bs, q + 6 + |key| + |own.data|, own.nonce)
  {
    hide Bytes, Lies, Holds, MessagePart, EncryptedPart, KeyPart, TextLaid;
    var a := Appendix(Some(Message(true, text)), Some(secret), Some(key), Some(own));
    var bs := AppendixBytes(a, version);
    var (m, e, k, s) := (MessagePart(a.message, version), EncryptedPart(a.encrypted, version),
                         KeyPart(a.publicKey, version), EncryptedPart(a.toSelf, version));
    WholeLies(bs);
    LiesWithin(bs, 0, m + e + k, s);
    LiesWithin(bs, 0, m + e, k);
    LiesWithin(bs, 0, m, e);
    MessageLies(bs, 0, version, text);
    SecretLies(bs, p, version, secret);
    KeyLies(bs, q, version, key);
    SecretLies(bs, q + 1 + |key|, version, own);
  }

  lemma WholeLies(bs: seq<byte>)
    ensures Lies(bs, 0, bs)
  {
  }

  lemma TextLength(text: seq<byte>)
    requires |text| < 0x8000_0000
    ensures LengthField(true, |text|) == 0x8000_0000 + |text|
  {
  }

  lemma MessageLies(bs: seq<byte>, at: nat, version: nat, text: seq<byte>)
    requires 0 < version < 256 && |text| < 0x8000_0000
    requires Lies(bs, at, MessagePart(Some(Message(true, text)), version))
    ensures |MessagePart(Some(Message(true, text)), version)| == 5 + |text|
    ensures TextLaid(bs, at, version, text)
  {
    hide Bytes, Lies, Holds, LengthField;
    TextLength(text);
    var field := Bytes(0x8000_0000 + |text|, 4);
    assert VersionByte(version) + (field + text) + [] == VersionByte(version) + (field + text);
    CountedLies(bs, at, version, 0x8000_0000 + |text|, text, []);
  }

  lemma SecretLies(bs: seq<byte>, at: nat, version: nat, m: Encrypted)
    requires 0 < version < 256 && m.isText && |m.data| < 0x8000_0000
    requires Lies(bs, at, EncryptedPart(Some(m), version))
    ensures |EncryptedPart(Some(m), version)| == 5 + |m.data| + |m.nonce|
    ensures TextLaid(bs, at, version, m.data) && Lies(bs, at + 5 + |m.data|, m.nonce)
  {
    hide Bytes, Lies, Holds, LengthField;
    TextLength(m.data);
    var field := Bytes(0x8000_0000 + |m.data|, 4);
    assert VersionByte(version) + (field + m.data + m.nonce) == VersionByte(version) + (field + m.data) + m.nonce;
    CountedLies(bs, at, version, 0x8000_0000 + |m.data|, m.data, m.nonce);
  }

  lemma KeyLies(bs: seq<byte>, at: nat, version: nat, key: seq<byte>)
    requires 0 < version < 256 && Lies(bs, at, KeyPart(Some(key), version))
    ensures |KeyPart(Some(key), version)| == 1 + |key|
    ensures Holds(bs, at, 1, version) && Lies(bs, at + 1, key)
  {
    hide Bytes, Lies, Holds, Radix;
    LiesWithin(bs, at, VersionByte(version), key);
    FieldHolds(bs, at, version, 1);
    Radixes();
  }

  // ---------- writing ----------

  lemma Append3(w: seq<byte>, a: seq<byte>, b: seq<byte>, c: seq<byte>)
    ensures w + a + b + c == w + (a + b + c)
  {
  }

  lemma Append4(w: seq<byte>, a: seq<byte>, b: seq<byte>, c: seq<byte>, d: seq<byte>)
    ensures w + a + b + c + d == w + (a + b + c + d)
  {
  }

  method WriteHeader(e: Encoder, h: Header, flags: nat, txType: nat)
    requires e.Valid() && e.i + |HeaderBytes(h, flags, txType)| <= e.bs.Length
    modifies e, e.bs
    ensures e.Valid() && e.Written() == old(e.Written()) + HeaderBytes(h, flags, txType)
  {
    hide FrontBytes, AmountBytes, HashBytes, ChainBytes;
    ghost var w := e.Written();
    WriteFront(e, h, txType);
    WriteAmounts(e, h);
    WriteProofs(e, h);
    WriteChain(e, h, flags, txType);
    Append4(w, FrontBytes(h, txType), AmountBytes(h), HashBytes(h) + h.signature, ChainBytes(h, flags, txType));
  }

  method WriteFront(e: Encoder, h: Header, txType: nat)
    requires e.Valid() && e.i + |FrontBytes(h, txType)| <= e.bs.Length
    modifies e, e.bs
    ensures e.Valid() && e.Written() == old(e.Written()) + FrontBytes(h, txType)
  {
    hide Bytes;
    ghost var w := e.Written();
    e.WriteUint(txType + h.version % 16 * 4096, 2);
    e.WriteUint(h.timestamp, 4);
    e.WriteUint(h.deadline, 2);
    e.WriteBytes(h.senderPublicKey);
    Append4(w, Bytes(txType + h.version % 16 * 4096, 2), Bytes(h.timestamp, 4), Bytes(h.deadline, 2),
        h.senderPublicKey);
  }

  method WriteAmounts(e: Encoder, h: Header)
    requires e.Valid() && e.i + |AmountBytes(h)| <= e.bs.Length
    modifies e, e.bs
    ensures e.Valid() && e.Written() == old(e.Written()) + AmountBytes(h)
  {
    hide Bytes;
    ghost var w := e.Written();
    e.WriteUint(h.recipient, 8);
    e.WriteUint(h.amount, 8);
    e.WriteUint(h.fee, 8);
    Append3(w, Bytes(h.recipient, 8), Bytes(h.amount, 8), Bytes(h.fee, 8));
  }

  method WriteProofs(e: Encoder, h: Header)
    requires e.Valid() && e.i + |HashBytes(h) + h.signature| <= e.bs.Length
    modifies e, e.bs
    ensures e.Valid() && e.Written() == old(e.Written()) + (HashBytes(h) + h.signature)
  {
    if h.referencedHash == [] {
      e.WriteZeros(32);
    } else {
      e.WriteBytes(h.referencedHash);
    }
    e.WriteBytes(h.signature);
  }

  method WriteChain(e: Encoder, h: Header, flags: nat, txType: nat)
    requires e.Valid() && e.i + |ChainBytes(h, flags, txType)| <= e.bs.Length
    modifies e, e.bs
    ensures e.Valid() && e.Written() == old(e.Written()) + ChainBytes(h, flags, txType)
  {
    hide Bytes;
    if h.version > 0 {
      ghost var w := e.Written();
      e.WriteUint(flags, 4);
      e.WriteUint(h.ecBlockHeight, 4);
      e.WriteUint(h.ecBlockId, 8);
      Append3(w, Bytes(flags, 4), Bytes(h.ecBlockHeight, 4), Bytes(h.ecBlockId, 8));
      if txType != 0 && txType != 1 {
        e.WriteUint(h.version, 1);
      }
    }
  }

  method WriteVersion(e: Encoder, version: nat)
    requires e.Valid() && e.i + |VersionByte(version)| <= e.bs.Length
    modifies e, e.bs
    ensures e.Valid() && e.Written() == old(e.Written()) + VersionByte(version)
  {
    if version > 0 {
      e.WriteUint(version, 1);
    }
  }

  method WriteMessagePart(e: Encoder, m: Option<Message>, version: nat)
    requires m.Some? ==> m.value.isText || IsHex(m.value.content)
    requires e.Valid() && e.i + |MessagePart(m, version)| <= e.bs.Length
    modifies e, e.bs
    ensures e.Valid() && e.Written() == old(e.Written()) + MessagePart(m, version)
  {
    hide Bytes, HexDecode, IsHex, VersionByte;
    if m.Some? {
      WriteVersion(e, version);
      var _ := e.WriteStringBytesWithInt32Len(m.value.isText, m.value.content);
    }
  }

  method WriteEncryptedPart(e: Encoder, m: Option<Encrypted>, version: nat)
    requires m.Some? ==> m.value.isText || IsHex(m.value.data)
    requires e.Valid() && e.i + |EncryptedPart(m, version)| <= e.bs.Length
    modifies e, e.bs
    ensures e.Valid() && e.Written() == old(e.Written()) + EncryptedPart(m, version)
  {
    hide Bytes, HexDecode, IsHex, VersionByte, LengthField;
    if m.Some? {
      ghost var w := e.Written();
      var p := m.value;
      if !p.isText {
        EvenHex(p.data);
      }
      ghost var body := if p.isText then p.data else HexDecode(p.data) + seq(|p.data| / 2, _ => 0);
      WriteVersion(e, version);
      var _ := e.WriteBytesWithInt32Len(p.isText, p.data);
      e.WriteBytes(p.nonce);
      Append4(w, VersionByte(version), Bytes(LengthField(p.isText, |p.data|), 4), body, p.nonce);
      Append3(VersionByte(version), Bytes(LengthField(p.isText, |p.data|), 4), body, p.nonce);
    }
  }

  method WriteKeyPart(e: Encoder, k: Option<seq<byte>>, version: nat)
    requires e.Valid() && e.i + |KeyPart(k, version)| <= e.bs.Length
    modifies e, e.bs
    ensures e.Valid() && e.Written() == old(e.Written()) + KeyPart(k, version)
  {
    hide VersionByte;
    if k.Some? {
      WriteVersion(e, version);
      e.WriteBytes(k.value);
    }
  }

  method WriteAppendix(e: Encoder, a: Appendix, version: nat)
    requires Writable(a) && e.Valid() && e.i + |AppendixBytes(a, version)| <= e.bs.Length
    modifies e, e.bs
    ensures e.Valid() && e.Written() == old(e.Written()) + AppendixBytes(a, version)
  {
    hide MessagePart, EncryptedPart, KeyPart, IsHex;
    ghost var w := e.Written();
    WriteMessagePart(e, a.message, version);
    WriteEncryptedPart(e, a.encrypted, version);
    WriteKeyPart(e, a.publicKey, version);
    WriteEncryptedPart(e, a.toSelf, version);
    Append4(w, MessagePart(a.message, version), EncryptedPart(a.encrypted, version), KeyPart(a.publicKey, version),
            EncryptedPart(a.toSelf, version));
  }

  method WriteAttachment(e: Encoder, a: Attachment)
    requires e.Valid() && e.i + |AttachmentBytes(a)| <= e.bs.Length
    modifies e, e.bs
    ensures e.Valid() && e.Written() == old(e.Written()) + AttachmentBytes(a)
  {
    match a
    case CreationOf(c) => WriteCreation(e, c);
    case DeliveryOf(d) => WriteDelivery(e, d);
  }

  /** Key, hash and signature of the usual lengths, and no part that is written longer or shorter than measured. */
  ghost predicate Regular(h: Header, a: Attachment, appendix: Option<Appendix>)
  {
    && |h.senderPublicKey| == 32 && |h.referencedHash| in {0, 32} && |h.signature| == 64
    && (a.DeliveryOf? ==> IsHex(a.delivery.data))
    && (appendix.Some? ==>
          Writable(appendix.value) && !Oversized(appendix.value.encrypted) && !Oversized(appendix.value.toSelf))
  }

  /** The buffer measured beforehand is filled to its last byte. */
  method ToBytes(h: Header, a: Attachment, appendix: Option<Appendix>) returns (bs: seq<byte>)
    requires Regular(h, a, appendix)
    ensures bs == HeaderBytes(h, if appendix.Some? then AppendixFlags(appendix.value) else 0, TypeOf(a))
                  + AttachmentBytes(a)
                  + (if appendix.Some? then AppendixBytes(appendix.value, h.version) else [])
    ensures HeaderLaid(bs, h, if appendix.Some? then AppendixFlags(appendix.value) else 0, TypeOf(a))
  {
    hide HeaderLaid, Lies;
    hide HeaderBytes, AttachmentBytes, AppendixBytes, HeaderSizeInBytes, AttachmentSizeInBytes, AppendixSizeInBytes;
    hide Writable, Oversized;
    var flags, appendixSize := 0, 0;
    if appendix.Some? {
      appendixSize := AppendixSizeInBytes(appendix.value, h.version);
      flags := AppendixFlags(appendix.value);
      AppendixFitsIff(appendix.value, h.version);
    }
    var txType := TypeOf(a);
    HeaderFitsIff(h, flags, txType);
    AttachmentFitsIff(a);
    var e := new Encoder(HeaderSizeInBytes(h, txType) + AttachmentSizeInBytes(a) + appendixSize);
    WriteHeader(e, h, flags, txType);
    WriteAttachment(e, a);
    if appendix.Some? {
      WriteAppendix(e, appendix.value, h.version);
    }
    bs := e.bs[..];
    assert bs == e.Written();
    ghost var part := if appendix.Some? then AppendixBytes(appendix.value, h.version) else [];
    assert bs == HeaderBytes(h, flags, txType) + AttachmentBytes(a) + part;
    StartLies(HeaderBytes(h, flags, txType), AttachmentBytes(a), part);
    HeaderLies(bs, h, flags, txType);
  }
}
