/** Two attachments whose length fields depend on their content: what is written, and what reading makes of it. */
module Attachments {
  import opened LittleEndian
  import opened Options
  import opened Encoding
  import opened MachineWords

  const PAGE_SIZE := 256
  const MAX_NAME_LEN := 30
  const MAX_DESCRIPTION_LEN := 1000

  /** What reading ends in: an attachment and the bytes it took, a refused length, or a panic. */
  datatype Parse<T> = Parsed(value: T, used: nat) | NameTooLong | DescriptionTooLong | Panics

  // ---------- automated transaction creation ----------

  datatype Creation = Creation(name: seq<byte>, description: seq<byte>, bytes: seq<byte>)

  ghost function CreationBytes(a: Creation): seq<byte>
  {
    Bytes(|a.name|, 1) + a.name + Bytes(|a.description|, 2) + a.description + a.bytes
  }

  /** How many bytes a length field takes: one up to a page, two below 256 pages, else four. */
  function FieldWidth(pages: nat): (n: nat)
    ensures n == 1 <==> pages <= 1
    ensures n == 2 <==> 2 <= pages < 256
    ensures n == 4 <==> pages >= 256
  {
    if pages * PAGE_SIZE < PAGE_SIZE + 1 then 1 else if pages * PAGE_SIZE < 0xffff then 2 else 4
  }

  /** The end of a counted part that begins with its length. */
  ghost function CountedEnd(s: seq<byte>, at: nat, width: nat): Option<nat>
  {
    if at + width > |s| then None
    else
      var e := at + width + Value(s[at..at + width]);
      if e > |s| then None else Some(e)
  }

  /** The length of the creation blob at the start of the bytes: a header of 20, the code, the data. */
  ghost function BlobLength(s: seq<byte>): (r: Option<nat>)
    ensures r.Some? ==> r.value <= |s|
  {
    if |s| < 20 then None
    else
      match CountedEnd(s, 20, FieldWidth(Value(s[4..6])))
      case None => None
      case Some(e) => CountedEnd(s, e, FieldWidth(Value(s[6..8])))
  }

  ghost function ParseCreation(s: seq<byte>): Parse<Creation>
  {
    if |s| < 1 then Panics
    else
      var p := 1 + Value(s[..1]);
      if Value(s[..1]) > MAX_NAME_LEN then NameTooLong
      else if p + 2 > |s| then Panics
      else
        var q := p + 2 + Value(s[p..p + 2]);
        if Value(s[p..p + 2]) > MAX_DESCRIPTION_LEN then DescriptionTooLong
        else if q > |s| then Panics
        else
          match BlobLength(s[q..])
          case None => Panics
          case Some(n) => Parsed(Creation(s[1..p], s[p + 2..q], s[q..q + n]), q + n)
  }

  method WriteCreation(e: Encoder, a: Creation)
    requires e.Valid() && e.i + |CreationBytes(a)| <= e.bs.Length
    modifies e, e.bs
    ensures e.Valid() && e.Written() == old(e.Written()) + CreationBytes(a)
  {
    hide Bytes;
    e.WriteUint(|a.name|, 1);
    e.WriteBytes(a.name);
    e.WriteUint(|a.description|, 2);
    e.WriteBytes(a.description);
    e.WriteBytes(a.bytes);
  }

  /** A length field and the part it counts, both skipped. */
  method SkipCounted(d: Decoder, width: nat) returns (ok: bool)
    requires d.i <= |d.bs|
    modifies d
    ensures ok <==> CountedEnd(d.bs, old(d.i), width).Some?
    ensures ok ==> d.i == CountedEnd(d.bs, old(d.i), width).value && old(d.i) <= d.i <= |d.bs|
  {
    var len := d.ReadUint(width);
    if len == None {
      return false;
    }
    var part := d.ReadBytes(len.value);
    ok := part != None;
  }

  lemma CountedEndFrom(s: seq<byte>, q: nat, at: nat, width: nat)
    requires q <= |s|
    ensures CountedEnd(s, q + at, width)
         == match CountedEnd(s[q..], at, width) case None => None case Some(e) => Some(q + e)
  {
    if q + at + width <= |s| {
      assert s[q..][at..at + width] == s[q + at..q + at + width];
    }
  }

  /** Walks through the creation blob to find where it ends, then takes it whole. */
  method ReadBlob(d: Decoder) returns (r: Option<seq<byte>>)
    requires d.i <= |d.bs|
    modifies d
    ensures var rest := d.bs[old(d.i)..];
            r == match BlobLength(rest) case None => None case Some(n) => Some(rest[..n])
    ensures r.Some? ==> d.i == old(d.i) + |r.value|
  {
    hide CountedEnd, FieldWidth, Value;
    var startPos := d.i;
    ghost var rest := d.bs[startPos..];
    var head := d.ReadBytes(4);
    if head == None { return None; }
    var codePages := d.ReadUint(2);
    if codePages == None { return None; }
    var dataPages := d.ReadUint(2);
    if dataPages == None { return None; }
    var more := d.ReadBytes(12);
    if more == None { return None; }
    DropSlice(d.bs, startPos, 4, 6);
    DropSlice(d.bs, startPos, 6, 8);
    CountedEndFrom(d.bs, startPos, 20, FieldWidth(codePages.value));
    var ok := SkipCounted(d, FieldWidth(codePages.value));
    if !ok { return None; }
    CountedEndFrom(d.bs, startPos, d.i - startPos, FieldWidth(dataPages.value));
    ok := SkipCounted(d, FieldWidth(dataPages.value));
    if !ok { return None; }
    var creationBytesLen := d.i - startPos;
    d.Reset(startPos);
    r := d.ReadBytes(creationBytesLen);
    DropSlice(d.bs, startPos, 0, creationBytesLen);
    assert rest[0..creationBytesLen] == rest[..creationBytesLen];
  }

  method ReadCreation(d: Decoder) returns (r: Parse<Creation>)
    requires d.i <= |d.bs|
    modifies d
    ensures r == ParseCreation(d.bs[old(d.i)..])
    ensures r.Parsed? ==> d.i == old(d.i) + r.used
  {
    hide BlobLength, Value;
    ghost var rest := d.bs[d.i..];
    var start := d.i;
    var nameLen := d.ReadUint(1);
    if nameLen == None { return Panics; }
    DropSlice(d.bs, start, 0, 1);
    assert rest[0..1] == rest[..1];
    if nameLen.value > MAX_NAME_LEN { return NameTooLong; }
    var name := d.ReadBytes(nameLen.value);
    if name == None { return Panics; }
    ghost var p := 1 + nameLen.value;
    DropSlice(d.bs, start, 1, p);
    var descriptionLen := d.ReadUint(2);
    if descriptionLen == None { return Panics; }
    DropSlice(d.bs, start, p, p + 2);
    if descriptionLen.value > MAX_DESCRIPTION_LEN { return DescriptionTooLong; }
    var description := d.ReadBytes(descriptionLen.value);
    if description == None { return Panics; }
    ghost var q := p + 2 + descriptionLen.value;
    DropSlice(d.bs, start, p + 2, q);
    assert d.bs[start + q..] == rest[q..];
    var bytes := ReadBlob(d);
    if bytes == None { return Panics; }
    assert bytes.value == rest[q..][..|bytes.value|] == rest[q..q + |bytes.value|];
    r := Parsed(Creation(name.value, description.value, bytes.value), d.i - start);
  }

  /** A length field that can hold the length reads back as the length. */
  lemma LengthBack(n: nat, width: nat)
    requires width == 1 || width == 2 || width == 4
    requires n < (if width == 1 then 0x100 else if width == 2 then 0x1_0000 else 0x1_0000_0000)
    ensures Value(Bytes(n, width)) == n
  {
    Radixes();
    BytesValue(n, width);
  }

  /** Where the fields of a written creation lie. */
  lemma CreationFields(a: Creation, suffix: seq<byte>, p: nat, q: nat)
    requires p == 1 + |a.name| && q == p + 2 + |a.description|
    ensures |CreationBytes(a)| == q + |a.bytes|
    ensures var s := CreationBytes(a) + suffix;
            && s[..1] == Bytes(|a.name|, 1) && s[1..p] == a.name
            && s[p..p + 2] == Bytes(|a.description|, 2) && s[p + 2..q] == a.description
            && s[q..] == a.bytes + suffix && s[q..q + |a.bytes|] == a.bytes
  {
    hide Bytes;
  }

  /**
   A written creation followed by anything reads back as itself, the cursor
   right behind it, exactly when name and description have lengths the reader
   accepts and its blob is as long as its own length fields say.
   */
  lemma CreationReadsBackIff(a: Creation, suffix: seq<byte>)
    ensures ParseCreation(CreationBytes(a) + suffix) == Parsed(a, |CreationBytes(a)|)
       <==> |a.name| <= MAX_NAME_LEN && |a.description| <= MAX_DESCRIPTION_LEN
            && BlobLength(a.bytes + suffix) == Some(|a.bytes|)
  {
    hide Value, Bytes, BlobLength, CreationBytes;
    var s := CreationBytes(a) + suffix;
    CreationFields(a, suffix, 1 + |a.name|, 3 + |a.name| + |a.description|);
    if |a.name| <= MAX_NAME_LEN {
      LengthBack(|a.name|, 1);
    }
    if |a.description| <= MAX_DESCRIPTION_LEN {
      LengthBack(|a.description|, 2);
    }
    if ParseCreation(s) == Parsed(a, |CreationBytes(a)|) {
      ParsedLengths(s, a, |CreationBytes(a)|);
    }
  }

  /** The lengths of what was parsed are those its length fields gave. */
  lemma ParsedLengths(s: seq<byte>, a: Creation, used: nat)
    requires ParseCreation(s) == Parsed(a, used)
    ensures |s| >= 1 && |a.name| == Value(s[..1]) <= MAX_NAME_LEN
    ensures |a.description| <= MAX_DESCRIPTION_LEN
    ensures 3 + |a.name| + |a.description| <= |s|
    ensures BlobLength(s[3 + |a.name| + |a.description|..]) == Some(|a.bytes|)
  {
    hide Value, BlobLength;
  }

  /** A blob that is complete by itself is read the same whatever follows. */
  lemma BlobLengthPrefix(blob: seq<byte>, suffix: seq<byte>)
    requires BlobLength(blob) == Some(|blob|)
    ensures BlobLength(blob + suffix) == Some(|blob|)
  {
    hide FieldWidth, Value;
    var s := blob + suffix;
    assert s[4..6] == blob[4..6] && s[6..8] == blob[6..8];
    var w, w' := FieldWidth(Value(blob[4..6])), FieldWidth(Value(blob[6..8]));
    assert s[20..20 + w] == blob[20..20 + w];
    var e := CountedEnd(blob, 20, w).value;
    assert s[e..e + w'] == blob[e..e + w'];
  }

  /** A blob as it is put together: header, counted code, counted data. */
  ghost function BlobOf(header: seq<byte>, code: seq<byte>, data: seq<byte>): seq<byte>
    requires |header| == 20
  {
    header + Bytes(|code|, FieldWidth(Value(header[4..6]))) + code
           + Bytes(|data|, FieldWidth(Value(header[6..8]))) + data
  }

  /** Code and data whose lengths their fields can hold. */
  ghost predicate Countable(header: seq<byte>, code: seq<byte>, data: seq<byte>)
  {
    && |header| == 20 && |code| < Radix(FieldWidth(Value(header[4..6])))
    && |data| < Radix(FieldWidth(Value(header[6..8])))
  }

  /** A counted part that ends at e is the bytes of its length and what lies between. */
  lemma CountedPart(s: seq<byte>, at: nat, width: nat, e: nat)
    requires CountedEnd(s, at, width) == Some(e)
    ensures at + width <= e <= |s| && e - at - width < Radix(width)
    ensures s[at..e] == Bytes(e - at - width, width) + s[at + width..e]
  {
    var f := s[at..at + width];
    hide Bytes, Value, Radix;
    ValueBound(f);
    BytesValue(Value(f), width);
    ValueInjective(Bytes(Value(f), width), f);
    assert s[at..e] == f + s[at + width..e];
  }

  lemma CountedEndOf(s: seq<byte>, at: nat, width: nat, part: seq<byte>)
    requires at + width + |part| <= |s| && |part| < Radix(width)
    requires s[at..at + width] == Bytes(|part|, width)
    ensures CountedEnd(s, at, width) == Some(at + width + |part|)
  {
    hide Bytes, Value, Radix;
    BytesValue(|part|, width);
  }

  /** A blob put together is as long as its own fields say. */
  lemma BlobLengthOf(header: seq<byte>, code: seq<byte>, data: seq<byte>)
    requires Countable(header, code, data)
    ensures BlobLength(BlobOf(header, code, data)) == Some(|BlobOf(header, code, data)|)
  {
    hide Bytes, Value, Radix, FieldWidth, CountedEnd;
    var s := BlobOf(header, code, data);
    assert s[4..6] == header[4..6] && s[6..8] == header[6..8];
    var w, w' := FieldWidth(Value(header[4..6])), FieldWidth(Value(header[6..8]));
    assert s[20..20 + w] == Bytes(|code|, w);
    CountedEndOf(s, 20, w, code);
    var e := 20 + w + |code|;
    assert s[e..e + w'] == Bytes(|data|, w');
    CountedEndOf(s, e, w', data);
  }

  /** The parts of a blob that is as long as its own fields say. */
  lemma BlobParts(blob: seq<byte>) returns (header: seq<byte>, code: seq<byte>, data: seq<byte>)
    requires BlobLength(blob) == Some(|blob|)
    ensures Countable(header, code, data) && blob == BlobOf(header, code, data)
  {
    hide Bytes, Value, Radix, FieldWidth, CountedEnd;
    header := blob[..20];
    assert blob[4..6] == header[4..6] && blob[6..8] == header[6..8];
    var w, w' := FieldWidth(Value(blob[4..6])), FieldWidth(Value(blob[6..8]));
    var e := CountedEnd(blob, 20, w).value;
    CountedPart(blob, 20, w, e);
    CountedPart(blob, e, w', |blob|);
    code, data := blob[20 + w..e], blob[e + w'..|blob|];
    assert blob == header + blob[20..e] + blob[e..|blob|];
  }

  /** Exactly the blobs put together from a header, counted code and counted data are as long as their fields say. */
  lemma BlobLengthIff(blob: seq<byte>)
    ensures BlobLength(blob) == Some(|blob|)
       <==> exists header, code, data :: Countable(header, code, data) && blob == BlobOf(header, code, data)
  {
    hide BlobOf, BlobLength, Radix, Value, FieldWidth;
    if BlobLength(blob) == Some(|blob|) {
      var header, code, data := BlobParts(blob);
      assert Countable(header, code, data) && blob == BlobOf(header, code, data);
    }
    forall header, code, data | Countable(header, code, data) && blob == BlobOf(header, code, data)
      ensures BlobLength(blob) == Some(|blob|)
    {
      BlobLengthOf(header, code, data);
    }
  }

  /**
   A written creation reads back as itself before every suffix exactly when name
   and description have accepted lengths and the blob is put together properly.
   */
  lemma CreationReadsBackAlwaysIff(a: Creation)
    ensures (forall suffix :: ParseCreation(CreationBytes(a) + suffix) == Parsed(a, |CreationBytes(a)|))
       <==> |a.name| <= MAX_NAME_LEN && |a.description| <= MAX_DESCRIPTION_LEN
            && exists header, code, data :: Countable(header, code, data) && a.bytes == BlobOf(header, code, data)
  {
    hide CreationBytes, ParseCreation, BlobLength, Countable, BlobOf;
    BlobLengthIff(a.bytes);
    if BlobLength(a.bytes) == Some(|a.bytes|) {
      forall suffix ensures BlobLength(a.bytes + suffix) == Some(|a.bytes|) {
        BlobLengthPrefix(a.bytes, suffix);
      }
    }
    forall suffix
      ensures ParseCreation(CreationBytes(a) + suffix) == Parsed(a, |CreationBytes(a)|)
         <==> |a.name| <= MAX_NAME_LEN && |a.description| <= MAX_DESCRIPTION_LEN
              && BlobLength(a.bytes + suffix) == Some(|a.bytes|)
    {
      CreationReadsBackIff(a, suffix);
    }
    CreationReadsBackIff(a, []);
    assert a.bytes + [] == a.bytes;
  }

  // ---------- digital goods delivery ----------

  datatype Delivery = Delivery(purchase: nat, isText: bool, data: seq<byte>, nonce: seq<byte>, discount: nat)

  /** What is written; data that is not hexadecimal ends the writing early. */
  ghost function DeliveryBytes(a: Delivery): seq<byte>
  {
    var head := Bytes(a.purchase, 8) + Bytes(LengthField(a.isText, |a.data| / 2), 4);
    if IsHex(a.data) then head + HexDecode(a.data) + a.nonce + Bytes(a.discount, 8) else head
  }

  ghost function ParseDelivery(s: seq<byte>): Parse<Delivery>
  {
    if |s| < 12 then Panics
    else
      var field := Value(s[8..12]);
      var len := field % 0x8000_0000;
      var e := 12 + len;
      // twice the length no longer fits 32 signed bits
      if len >= 0x4000_0000 then Panics
      else if e + 40 > |s| then Panics
      else Parsed(Delivery(Value(s[..8]), field >= 0x8000_0000, HexEncode(s[12..e]), s[e..e + 32],
                           Value(s[e + 32..e + 40])), e + 40)
  }

  method WriteDelivery(e: Encoder, a: Delivery)
    requires e.Valid() && e.i + |DeliveryBytes(a)| <= e.bs.Length
    modifies e, e.bs
    ensures e.Valid() && e.Written() == old(e.Written()) + DeliveryBytes(a)
  {
    hide Bytes, HexDecode, IsHex, LengthField;
    e.WriteUint(a.purchase, 8);
    var l := |a.data| / 2;
    e.WriteUint(LengthField(a.isText, l), 4);
    if !IsHex(a.data) {
      return;
    }
    e.WriteBytes(HexDecode(a.data));
    e.WriteBytes(a.nonce);
    e.WriteUint(a.discount, 8);
  }

  /** The size of the hexadecimal buffer, in 32 signed bits, turns negative from 2^30 bytes up. */
  lemma DoubledLength(len: nat)
    requires len < 0x8000_0000
    ensures Wrap(len * 2, 0x8000_0000) < 0 <==> len >= 0x4000_0000
  {
    WrapFits(len * 2, 0x8000_0000);
  }

  method ReadDelivery(d: Decoder) returns (r: Parse<Delivery>)
    requires d.i <= |d.bs|
    modifies d
    ensures r == ParseDelivery(d.bs[old(d.i)..])
    ensures r.Parsed? ==> d.i == old(d.i) + r.used
  {
    hide HexEncode, Value, Wrap;
    var start := d.i;
    ghost var rest := d.bs[start..];
    var purchase := d.ReadUint(8);
    if purchase == None { return Panics; }
    DropSlice(d.bs, start, 0, 8);
    assert rest[0..8] == rest[..8];
    var field := d.ReadUint(4);
    if field == None { return Panics; }
    DropSlice(d.bs, start, 8, 12);
    var isText := field.value >= 0x8000_0000;
    var dataLen := field.value % 0x8000_0000;
    DoubledLength(dataLen);
    if Wrap(dataLen * 2, 0x8000_0000) < 0 { return Panics; }
    var data := d.ReadBytes(dataLen);
    if data == None { return Panics; }
    ghost var e := 12 + dataLen;
    DropSlice(d.bs, start, 12, e);
    var nonce := d.ReadBytes(32);
    if nonce == None { return Panics; }
    DropSlice(d.bs, start, e, e + 32);
    var discount := d.ReadUint(8);
    if discount == None { return Panics; }
    DropSlice(d.bs, start, e + 32, e + 40);
    r := Parsed(Delivery(purchase.value, isText, HexEncode(data.value), nonce.value, discount.value), d.i - start);
  }

  /** A delivery whose numbers fit their fields and whose data is hexadecimal. */
  ghost predicate Encodable(a: Delivery)
  {
    && a.purchase < 0x1_0000_0000_0000_0000 && a.discount < 0x1_0000_0000_0000_0000
    && IsHex(a.data) && |a.nonce| == 32
  }

  /** Where the fields of a written delivery lie. */
  lemma DeliveryFields(a: Delivery, suffix: seq<byte>, e: nat)
    requires IsHex(a.data) && |a.nonce| == 32 && e == 12 + |a.data| / 2
    ensures |DeliveryBytes(a)| == e + 40
    ensures var s := DeliveryBytes(a) + suffix;
            && s[..8] == Bytes(a.purchase, 8) && s[8..12] == Bytes(LengthField(a.isText, |a.data| / 2), 4)
            && s[12..e] == HexDecode(a.data) && s[e..e + 32] == a.nonce && s[e + 32..e + 40] == Bytes(a.discount, 8)
  {
    hide Bytes, HexDecode, IsHex, LengthField;
  }

  /**
   A written delivery followed by anything reads back as itself exactly when
   its data is in lower case and stands for less than 2^30 bytes.
   */
  lemma DeliveryReadsBackIff(a: Delivery, suffix: seq<byte>)
    requires Encodable(a)
    ensures ParseDelivery(DeliveryBytes(a) + suffix) == Parsed(a, |DeliveryBytes(a)|)
       <==> IsLower(a.data) && |a.data| / 2 < 0x4000_0000
  {
    hide Value, Bytes, HexEncode, HexDecode, IsHex, IsLower, DeliveryBytes, LengthField;
    var l := |a.data| / 2;
    DeliveryFields(a, suffix, 12 + l);
    Radixes();
    BytesValue(a.purchase, 8);
    BytesValue(a.discount, 8);
    LengthBack(LengthField(a.isText, l), 4);
    HexRoundTripIff(a.data);
    EvenHex(a.data);
  }

  /** Hexadecimal zeros for 2^30 bytes are written and not read back. */
  lemma LongDeliveryLost(suffix: seq<byte>)
    ensures var a := Delivery(0, false, seq(0x8000_0000, _ => 48), seq(32, _ => 0), 0);
            Encodable(a) && ParseDelivery(DeliveryBytes(a) + suffix) != Parsed(a, |DeliveryBytes(a)|)
  {
    hide ParseDelivery, DeliveryBytes, IsLower;
    DeliveryReadsBackIff(Delivery(0, false, seq(0x8000_0000, _ => 48), seq(32, _ => 0), 0), suffix);
  }

  /** A delivery of the one byte 0xAA, written "AA", is read back as something else. */
  lemma UpperCaseLost(suffix: seq<byte>)
    ensures var a := Delivery(0, false, [65, 65], seq(32, _ => 0), 0);
            Encodable(a) && ParseDelivery(DeliveryBytes(a) + suffix) != Parsed(a, |DeliveryBytes(a)|)
  {
    hide ParseDelivery, DeliveryBytes;
    var a := Delivery(0, false, [65, 65], seq(32, _ => 0), 0);
    assert a.data[0] == 65;
    DeliveryReadsBackIff(a, suffix);
  }
}
