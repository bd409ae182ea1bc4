/**
 Reading a transaction back: the reader takes other widths than the writer for
 the key, the signature and the key announcement.
 */
module TransactionReading {
  import opened LittleEndian
  import opened Options
  import opened Encoding
  import opened MachineWords
  import opened Attachments
  import opened TransactionBytes

  // ---------- the header ----------

  datatype HeaderRead = HeaderRead(header: Header, kind: nat, subKind: nat, flags: nat)

  /** What the header reader makes of any bytes; None is a panic. */
  ghost function ParseHeader(s: seq<byte>): Option<(HeaderRead, nat)>
  {
    if |s| < 160 || (s[1] >= 16 && |s| < 177) then None
    else
      var version := s[1] / 16;
      var h := Header(version, Value(s[2..6]), Value(s[6..8]), s[8..72], Value(s[72..80]), Value(s[80..88]),
                      Value(s[88..96]), s[96..128], s[128..160],
                      if version > 0 then Value(s[164..168]) else 0, if version > 0 then Value(s[168..176]) else 0);
      Some((HeaderRead(h, s[0], s[1] % 16, if version > 0 then Value(s[160..164]) else 0),
            if version > 0 then 177 else 160))
  }

  /** The fields that later versions have, and a byte that is skipped. */
  method ReadChain(d: Decoder, ghost start: nat) returns (r: Option<(nat, nat, nat)>)
    requires d.i == start + 160 <= |d.bs|
    modifies d
    ensures var rest := d.bs[start..];
            r == if |rest| < 177 then None
                 else Some((Value(rest[160..164]), Value(rest[164..168]), Value(rest[168..176])))
    ensures r.Some? ==> d.i == start + 177
  {
    hide Value;
    var flags := d.ReadUint(4);
    if flags == None { return None; }
    var ecHeight := d.ReadUint(4);
    if ecHeight == None { return None; }
    var ecId := d.ReadUint(8);
    if ecId == None { return None; }
    var more := d.ReadBytes(1);
    if more == None { return None; }
    DropSlice(d.bs, start, 160, 164);
    DropSlice(d.bs, start, 164, 168);
    DropSlice(d.bs, start, 168, 176);
    r := Some((flags.value, ecHeight.value, ecId.value));
  }

  method ReadHeader(d: Decoder) returns (r: Option<HeaderRead>)
    requires d.i <= |d.bs|
    modifies d
    ensures var p := ParseHeader(d.bs[old(d.i)..]);
            if p.None? then r == None else r == Some(p.value.0) && d.i == old(d.i) + p.value.1
  {
    hide Value;
    var start := d.i;
    ghost var rest := d.bs[start..];
    var txType := d.ReadBytes(1);
    if txType == None { return None; }
    var subTypeAndVersion := d.ReadBytes(1);
    if subTypeAndVersion == None { return None; }
    var timestamp := d.ReadUint(4);
    if timestamp == None { return None; }
    var deadline := d.ReadUint(2);
    if deadline == None { return None; }
    var key := d.ReadBytes(64);
    if key == None { return None; }
    var recipient := d.ReadUint(8);
    if recipient == None { return None; }
    var amount := d.ReadUint(8);
    if amount == None { return None; }
    var fee := d.ReadUint(8);
    if fee == None { return None; }
    var hash := d.ReadBytes(32);
    if hash == None { return None; }
    var signature := d.ReadBytes(32);
    if signature == None { return None; }
    Slices(d.bs, start);
    var version := subTypeAndVersion.value[0] / 16;
    var chain := Some((0, 0, 0));
    if version > 0 {
      chain := ReadChain(d, start);
      if chain == None { return None; }
    }
    var h := Header(version, timestamp.value, deadline.value, key.value, recipient.value, amount.value, fee.value,
                    hash.value, signature.value, chain.value.1, chain.value.2);
    r := Some(HeaderRead(h, txType.value[0], subTypeAndVersion.value[0] % 16, chain.value.0));
  }

  lemma Slices(s: seq<byte>, q: nat)
    requires q + 160 <= |s|
    ensures var r := s[q..];
            && r[0] == s[q] && r[1] == s[q + 1] && r[2..6] == s[q + 2..q + 6] && r[6..8] == s[q + 6..q + 8]
            && r[8..72] == s[q + 8..q + 72] && r[72..80] == s[q + 72..q + 80] && r[80..88] == s[q + 80..q + 88]
            && r[88..96] == s[q + 88..q + 96] && r[96..128] == s[q + 96..q + 128]
            && r[128..160] == s[q + 128..q + 160]
  {
    DropSlice(s, q, 2, 6);
    DropSlice(s, q, 6, 8);
    DropSlice(s, q, 8, 72);
    DropSlice(s, q, 72, 80);
    DropSlice(s, q, 80, 88);
    DropSlice(s, q, 88, 96);
    DropSlice(s, q, 96, 128);
    DropSlice(s, q, 128, 160);
  }

  /** A slice of a part that lies in the bytes. */
  lemma SliceLies(bs: seq<byte>, at: nat, part: seq<byte>, a: nat, b: nat)
    requires Lies(bs, at, part) && a <= b <= |part|
    ensures bs[at + a..at + b] == part[a..b]
  {
    var u, v := bs[at..at + |part|][a..b], bs[at + a..at + b];
    assert forall i :: 0 <= i < b - a ==> u[i] == v[i];
  }

  lemma TwoBytes(bs: seq<byte>, v: nat)
    requires Holds(bs, 0, 2, v)
    ensures |bs| >= 2 && v == bs[0] + 256 * (bs[1] as int)
  {
    var s := bs[0..2];
    assert s == [] + [bs[0]] + [bs[1]];
    ValueSnoc([], bs[0]);
    ValueSnoc([] + [bs[0]], bs[1]);
    assert Radix(1) == 256 && Radix(0) == 1;
  }

  /** The type word is read as it was written. */
  lemma TypeReads(bs: seq<byte>, h: Header, txType: nat)
    requires txType < 4096 && h.version < 16
    requires Holds(bs, 0, 2, (txType + h.version % 16 * 4096) % 0x1_0000)
    ensures bs[0] == txType % 256 && bs[1] % 16 == txType / 256 && bs[1] / 16 == h.version
  {
    hide Holds;
    var v := txType + h.version * 4096;
    TwoBytes(bs, v);
    Digits(v, txType, h.version, bs[0], bs[1]);
  }

  lemma Digits(v: int, t: int, version: int, lo: int, hi: int)
    requires 0 <= t < 4096 && 0 <= version < 16 && v == t + version * 4096
    requires 0 <= lo < 256 && 0 <= hi < 256 && v == lo + 256 * hi
    ensures lo == t % 256 && hi % 16 == t / 256 && hi / 16 == version
  {
  }

  /**
   What any written header is read as. Both widths being wrong by 32 bytes in
   opposite directions, the fields before the key and behind the signature are
   right, and all others are taken from their neighbours.
   */
  lemma HeaderReadsAs(bs: seq<byte>, h: Header, flags: nat, txType: nat)
    requires |h.senderPublicKey| == 32 && |h.referencedHash| in {0, 32} && |h.signature| == 64
    requires txType < 4096 && h.version < 16 && Lies(bs, 0, HeaderBytes(h, flags, txType))
    ensures ParseHeader(bs).None? <==> h.version > 0 && |bs| == 176
    ensures ParseHeader(bs).Some? ==>
              var (r, used) := ParseHeader(bs).value;
              var (g, hash) := (r.header, HashBytes(h));
              && (used == |HeaderBytes(h, flags, txType)| <==> h.version == 0 || (txType != 0 && txType != 1))
              && r.kind == txType % 256 && r.subKind == txType / 256 && g.version == h.version
              && g.timestamp == h.timestamp % 0x1_0000_0000 && g.deadline == h.deadline % 0x1_0000
              && g.senderPublicKey == h.senderPublicKey + AmountBytes(h) + hash[..8]
              && g.recipient == Value(hash[8..16]) && g.amount == Value(hash[16..24]) && g.fee == Value(hash[24..32])
              && g.referencedHash == h.signature[..32] && g.signature == h.signature[32..]
              && (h.version > 0 ==> r.flags == flags % 0x1_0000_0000
                                    && g.ecBlockHeight == h.ecBlockHeight % 0x1_0000_0000
                                    && g.ecBlockId == h.ecBlockId % 0x1_0000_0000_0000_0000)
  {
    hide Value, HeaderBytes, FrontBytes, AmountBytes;
    HeaderLies(bs, h, flags, txType);
    HeaderWidth(h, flags, txType);
    TypeReads(bs, h, txType);
    var hash := HashBytes(h);
    assert Lies(bs, 64, hash);
    SliceLies(bs, 64, hash, 8, 16);
    SliceLies(bs, 64, hash, 16, 24);
    SliceLies(bs, 64, hash, 24, 32);
    SliceLies(bs, 96, h.signature, 0, 32);
    SliceLies(bs, 96, h.signature, 32, 64);
    KeyReads(bs, h, flags, txType);
  }

  lemma HeaderWidth(h: Header, flags: nat, txType: nat)
    requires |h.senderPublicKey| == 32 && |h.referencedHash| in {0, 32} && |h.signature| == 64
    ensures |HeaderBytes(h, flags, txType)|
         == if h.version == 0 then 160 else if txType != 0 && txType != 1 then 177 else 176
  {
    hide Bytes;
  }

  lemma KeyReads(bs: seq<byte>, h: Header, flags: nat, txType: nat)
    requires |h.senderPublicKey| == 32 && |h.referencedHash| in {0, 32} && |h.signature| == 64
    requires Lies(bs, 0, HeaderBytes(h, flags, txType))
    ensures |bs| >= 72 && bs[8..72] == h.senderPublicKey + AmountBytes(h) + HashBytes(h)[..8]
  {
    hide Lies, Bytes, AmountBytes;
    var key, amounts, hash := h.senderPublicKey, AmountBytes(h), HashBytes(h);
    var head := Bytes(txType + h.version % 16 * 4096, 2) + Bytes(h.timestamp, 4) + Bytes(h.deadline, 2);
    var end := hash[8..] + h.signature + ChainBytes(h, flags, txType);
    Widths(h, txType);
    assert hash == hash[..8] + hash[8..];
    assert HeaderBytes(h, flags, txType) == head + ((key + amounts + hash[..8]) + end);
    LiesWithin(bs, 0, head, (key + amounts + hash[..8]) + end);
    LiesWithin(bs, 8, key + amounts + hash[..8], end);
    LiesIs(bs, 8, key + amounts + hash[..8]);
  }

  lemma LiesIs(bs: seq<byte>, at: nat, part: seq<byte>)
    requires Lies(bs, at, part)
    ensures at + |part| <= |bs| && bs[at..at + |part|] == part
  {
  }

  /** So no written header is ever read back as itself. */
  lemma HeaderNeverReadsBack(bs: seq<byte>, h: Header, flags: nat, txType: nat)
    requires |h.senderPublicKey| == 32 && |h.referencedHash| in {0, 32} && |h.signature| == 64
    requires Lies(bs, 0, HeaderBytes(h, flags, txType))
    ensures ParseHeader(bs).Some? ==> ParseHeader(bs).value.0.header != h
  {
  }

  // ---------- the appendix ----------

  /** A length with a text bit and what it counts: the text, or hexadecimal for the bytes; and where it ends. */
  ghost function ParseCounted(s: seq<byte>, at: nat): Option<(bool, seq<byte>, nat)>
  {
    if at + 4 > |s| then None
    else
      var field := Value(s[at..at + 4]);
      var len := field % 0x8000_0000;
      var e := at + 4 + len;
      if field >= 0x8000_0000 then if e > |s| then None else Some((true, s[at + 4..e], e))
      // twice the length no longer fits 32 signed bits
      else if len >= 0x4000_0000 || e > |s| then None
      else Some((false, HexEncode(s[at + 4..e]), e))
  }

  ghost function AfterVersion(at: nat, version: nat): nat
  {
    if version > 0 then at + 1 else at
  }

  ghost function ParseMessage(s: seq<byte>, at: nat, version: nat): Option<(Message, nat)>
  {
    match ParseCounted(s, AfterVersion(at, version))
    case None => None
    case Some((isText, content, e)) => Some((Message(isText, content), e))
  }

  ghost function ParseEncrypted(s: seq<byte>, at: nat, version: nat): Option<(Encrypted, nat)>
  {
    match ParseCounted(s, AfterVersion(at, version))
    case None => None
    case Some((isText, data, e)) =>
      if e + 32 > |s| then None else Some((Encrypted(isText, data, s[e..e + 32]), e + 32))
  }

  ghost function ParseKey(s: seq<byte>, at: nat, version: nat): Option<(seq<byte>, nat)>
  {
    var p := AfterVersion(at, version);
    if p + 64 > |s| then None else Some((s[p..p + 64], p + 64))
  }

  /** What the appendix reader makes of any bytes, where it ends included. */
  ghost function ParseAppendix(s: seq<byte>, at: nat, version: nat, flags: nat): Option<(Appendix, nat)>
  {
    var m := if flags % 2 == 1 then ParseMessage(s, at, version) else None;
    if flags % 2 == 1 && m == None then None
    else
      var p := if m.Some? then m.value.1 else at;
      var x := if flags / 2 % 2 == 1 then ParseEncrypted(s, p, version) else None;
      if flags / 2 % 2 == 1 && x == None then None
      else
        var q := if x.Some? then x.value.1 else p;
        var k := if flags / 4 % 2 == 1 then ParseKey(s, q, version) else None;
        if flags / 4 % 2 == 1 && k == None then None
        else
          var r := if k.Some? then k.value.1 else q;
          var y := if flags / 8 % 2 == 1 then ParseEncrypted(s, r, version) else None;
          if flags / 8 % 2 == 1 && y == None then None
          else Some((Appendix(First(m), First(x), First(k), First(y)), if y.Some? then y.value.1 else r))
  }

  ghost function First<T>(o: Option<(T, nat)>): Option<T>
  {
    match o case None => None case Some((x, _)) => Some(x)
  }

  method ReadCounted(d: Decoder) returns (r: Option<(bool, seq<byte>)>)
    modifies d
    ensures var p := ParseCounted(d.bs, old(d.i));
            if p.None? then r == None else r == Some((p.value.0, p.value.1)) && d.i == p.value.2
  {
    hide Value, HexEncode, Wrap;
    var field := d.ReadUint(4);
    if field == None { return None; }
    var len := field.value % 0x8000_0000;
    if field.value >= 0x8000_0000 {
      var content := d.ReadBytes(len);
      if content == None { return None; }
      return Some((true, content.value));
    }
    DoubledLength(len);
    if Wrap(len * 2, 0x8000_0000) < 0 { return None; }
    var content := d.ReadBytes(len);
    if content == None { return None; }
    r := Some((false, HexEncode(content.value)));
  }

  method SkipVersion(d: Decoder, version: nat) returns (ok: bool)
    modifies d
    ensures ok ==> d.i == AfterVersion(old(d.i), version)
    ensures !ok <==> version > 0 && old(d.i) + 1 > |d.bs|
  {
    ok := true;
    if version > 0 {
      var v := d.ReadBytes(1);
      ok := v != None;
    }
  }

  method ReadMessagePart(d: Decoder, version: nat) returns (r: Option<Message>)
    modifies d
    ensures var p := ParseMessage(d.bs, old(d.i), version);
            if p.None? then r == None else r == Some(p.value.0) && d.i == p.value.1
  {
    hide Value, HexEncode;
    var ok := SkipVersion(d, version);
    if !ok { return None; }
    var c := ReadCounted(d);
    if c == None { return None; }
    r := Some(Message(c.value.0, c.value.1));
  }

  method ReadEncryptedPart(d: Decoder, version: nat) returns (r: Option<Encrypted>)
    modifies d
    ensures var p := ParseEncrypted(d.bs, old(d.i), version);
            if p.None? then r == None else r == Some(p.value.0) && d.i == p.value.1
  {
    hide Value, HexEncode;
    var ok := SkipVersion(d, version);
    if !ok { return None; }
    var c := ReadCounted(d);
    if c == None { return None; }
    var nonce := d.ReadBytes(32);
    if nonce == None { return None; }
    r := Some(Encrypted(c.value.0, c.value.1, nonce.value));
  }

  method ReadKeyPart(d: Decoder, version: nat) returns (r: Option<seq<byte>>)
    modifies d
    ensures var p := ParseKey(d.bs, old(d.i), version);
            if p.None? then r == None else r == Some(p.value.0) && d.i == p.value.1
  {
    var ok := SkipVersion(d, version);
    if !ok { return None; }
    r := d.ReadBytes(64);
  }

  /** Reads the parts whose flags are set, in order; None is a panic. */
  method ReadAppendix(d: Decoder, version: nat, flags: nat) returns (r: Option<Appendix>)
    modifies d
    ensures var p := ParseAppendix(d.bs, old(d.i), version, flags);
            if p.None? then r == None else r == Some(p.value.0) && d.i == p.value.1
  {
    hide ParseMessage, ParseEncrypted, ParseKey;
    var message, encrypted, key, toSelf := None, None, None, None;
    if flags % 2 == 1 {
      message := ReadMessagePart(d, version);
      if message == None { return None; }
    }
    if flags / 2 % 2 == 1 {
      encrypted := ReadEncryptedPart(d, version);
      if encrypted == None { return None; }
    }
    if flags / 4 % 2 == 1 {
      key := ReadKeyPart(d, version);
      if key == None { return None; }
    }
    if flags / 8 % 2 == 1 {
      toSelf := ReadEncryptedPart(d, version);
      if toSelf == None { return None; }
    }
    r := Some(Appendix(message, encrypted, key, toSelf));
  }

  // ---------- when an appendix reads back ----------

  ghost predicate MessageReads(m: Message)
  {
    if m.isText then |m.content| < 0x8000_0000 else IsLower(m.content) && |m.content| / 2 < 0x4000_0000
  }

  ghost predicate EncryptedReads(m: Encrypted)
  {
    |m.nonce| == 32 && if m.isText then |m.data| < 0x8000_0000 else m.data == []
  }

  /** The parts that are read as they were written. */
  ghost predicate AppendixReads(a: Appendix)
  {
    && (a.message.Some? ==> MessageReads(a.message.value))
    && (a.encrypted.Some? ==> EncryptedReads(a.encrypted.value))
    && (a.publicKey.Some? ==> |a.publicKey.value| == 64)
    && (a.toSelf.Some? ==> EncryptedReads(a.toSelf.value))
  }

  lemma EncodedLower(d: seq<byte>)
    ensures IsLower(HexEncode(d))
  {
  }

  /** Whatever counted part is read fits its length field, and hexadecimal comes in lower case. */
  lemma CountedShape(s: seq<byte>, at: nat)
    ensures var p := ParseCounted(s, at);
            p.Some? ==>
              var (isText, content, e) := p.value;
              && (if isText then |content| < 0x8000_0000 else IsLower(content) && |content| / 2 < 0x4000_0000)
              && (if isText then e == at + 4 + |content| else 2 * (e - at - 4) == |content|)
              && e - at - 4 == Value(s[at..at + 4]) % 0x8000_0000
  {
    hide Value, HexEncode, IsLower;
    forall d ensures IsLower(HexEncode(d)) {
      EncodedLower(d);
    }
  }

  /** A written length and the bytes behind it. */
  lemma CountedReads(s: seq<byte>, at: nat, isText: bool, l: nat, body: seq<byte>)
    requires Lies(s, at, Bytes(LengthField(isText, l), 4) + body)
    ensures at + 4 <= |s| && Value(s[at..at + 4]) % 0x8000_0000 == l % 0x8000_0000
    ensures |body| == l < 0x8000_0000 && (!isText ==> l < 0x4000_0000) ==>
              ParseCounted(s, at) == Some((isText, if isText then body else HexEncode(body), at + 4 + l))
  {
    hide Value, Bytes, HexEncode, LengthField, Lies;
    var f := LengthField(isText, l);
    LiesWithin(s, at, Bytes(f, 4), body);
    LiesIs(s, at, Bytes(f, 4));
    LiesIs(s, at + 4, body);
    Radixes();
    BytesValue(f, 4);
  }

  lemma VersionLies(s: seq<byte>, at: nat, version: nat, rest: seq<byte>)
    requires Lies(s, at, VersionByte(version) + rest)
    ensures AfterVersion(at, version) == at + |VersionByte(version)| && Lies(s, AfterVersion(at, version), rest)
  {
    LiesWithin(s, at, VersionByte(version), rest);
  }

  lemma MessageBackIff(s: seq<byte>, at: nat, m: Message, version: nat)
    requires m.isText || IsHex(m.content)
    requires Lies(s, at, MessagePart(Some(m), version))
    ensures MessageReads(m) ==> ParseMessage(s, at, version) == Some((m, at + |MessagePart(Some(m), version)|))
    ensures !MessageReads(m) ==> First(ParseMessage(s, at, version)) != Some(m)
  {
    hide Lies, Bytes, Value, HexEncode, HexDecode, IsHex, IsLower, LengthField, ParseCounted, VersionByte;
    var l := if m.isText then |m.content| else |m.content| / 2;
    var body := if m.isText then m.content else HexDecode(m.content);
    VersionLies(s, at, version, MessageBytes(m));
    var p := AfterVersion(at, version);
    CountedReads(s, p, m.isText, l, body);
    CountedShape(s, p);
    if !m.isText {
      HexRoundTripIff(m.content);
    }
  }

  lemma EncryptedBackIff(s: seq<byte>, at: nat, m: Encrypted, version: nat)
    requires m.isText || IsHex(m.data)
    requires Lies(s, at, EncryptedPart(Some(m), version))
    ensures EncryptedReads(m) ==> ParseEncrypted(s, at, version) == Some((m, at + |EncryptedPart(Some(m), version)|))
    ensures !EncryptedReads(m) ==> First(ParseEncrypted(s, at, version)) != Some(m)
  {
    hide Lies, Bytes, Value, HexEncode, HexDecode, IsHex, IsLower, LengthField, ParseCounted, VersionByte;
    var l := |m.data|;
    var body := if m.isText then m.data else HexDecode(m.data) + seq(|m.data| / 2, _ => 0);
    VersionLies(s, at, version, EncryptedBytes(m));
    var p := AfterVersion(at, version);
    LiesWithin(s, p, Bytes(LengthField(m.isText, l), 4) + body, m.nonce);
    LiesIs(s, p + 4 + |body|, m.nonce);
    CountedReads(s, p, m.isText, l, body);
    CountedShape(s, p);
    if !m.isText && m.data == [] {
      assert HexEncode(body) == m.data;
    }
  }

  lemma KeyBackIff(s: seq<byte>, at: nat, k: seq<byte>, version: nat)
    requires Lies(s, at, KeyPart(Some(k), version))
    ensures |k| == 64 ==> ParseKey(s, at, version) == Some((k, at + |KeyPart(Some(k), version)|))
    ensures |k| != 64 ==> First(ParseKey(s, at, version)) != Some(k)
  {
    hide Lies, VersionByte;
    VersionLies(s, at, version, k);
    LiesIs(s, AfterVersion(at, version), k);
  }

  /** Where the parts of a written appendix begin. */
  lemma PartsLie(s: seq<byte>, at: nat, a: Appendix, version: nat)
    requires Writable(a) && Lies(s, at, AppendixBytes(a, version))
    ensures var (m, x, k, y) := (MessagePart(a.message, version), EncryptedPart(a.encrypted, version),
                                 KeyPart(a.publicKey, version), EncryptedPart(a.toSelf, version));
            Lies(s, at, m) && Lies(s, at + |m|, x) && Lies(s, at + |m| + |x|, k) && Lies(s, at + |m| + |x| + |k|, y)
  {
    hide Lies, MessagePart, EncryptedPart, KeyPart;
    var (m, x, k, y) := (MessagePart(a.message, version), EncryptedPart(a.encrypted, version),
                         KeyPart(a.publicKey, version), EncryptedPart(a.toSelf, version));
    LiesWithin(s, at, m + x + k, y);
    LiesWithin(s, at, m + x, k);
    LiesWithin(s, at, m, x);
  }

  /**
   A written appendix reads back as itself, the cursor right behind it, exactly
   when hexadecimal is in lower case and short enough, encrypted parts are text,
   nonces have 32 bytes, and an announced key has 64.
   */
  lemma AppendixReadsBackIff(s: seq<byte>, at: nat, a: Appendix, version: nat)
    requires Writable(a) && Lies(s, at, AppendixBytes(a, version))
    ensures ParseAppendix(s, at, version, AppendixFlags(a)) == Some((a, at + |AppendixBytes(a, version)|))
       <==> AppendixReads(a)
  {
    hide Lies, MessageReads, EncryptedReads, ParseMessage, ParseEncrypted, ParseKey, MessageBytes, EncryptedBytes;
    hide MessagePart, EncryptedPart, KeyPart;
    PartsLie(s, at, a, version);
    AppendixFlagsTell(a);
    Absent(version);
    var m, x := MessagePart(a.message, version), EncryptedPart(a.encrypted, version);
    var k := KeyPart(a.publicKey, version);
    if a.message.Some? {
      MessageBackIff(s, at, a.message.value, version);
    }
    if a.encrypted.Some? {
      EncryptedBackIff(s, at + |m|, a.encrypted.value, version);
    }
    if a.publicKey.Some? {
      KeyBackIff(s, at + |m| + |x|, a.publicKey.value, version);
    }
    if a.toSelf.Some? {
      EncryptedBackIff(s, at + |m| + |x| + |k|, a.toSelf.value, version);
    }
  }

  lemma Absent(version: nat)
    ensures MessagePart(None, version) == EncryptedPart(None, version) == KeyPart(None, version) == []
  {
  }

  /** Announcing a key of 32 bytes is written and not read back. */
  lemma AnnouncementLost(key: seq<byte>, version: nat, suffix: seq<byte>)
    requires |key| == 32
    ensures var a := Appendix(None, None, Some(key), None);
            var s := AppendixBytes(a, version) + suffix;
            ParseAppendix(s, 0, version, AppendixFlags(a)) != Some((a, |AppendixBytes(a, version)|))
  {
    hide AppendixBytes, ParseAppendix, AppendixFlags;
    var a := Appendix(None, None, Some(key), None);
    StartLies(AppendixBytes(a, version), suffix, []);
    assert AppendixBytes(a, version) + suffix + [] == AppendixBytes(a, version) + suffix;
    AppendixReadsBackIff(AppendixBytes(a, version) + suffix, 0, a, version);
  }
}
