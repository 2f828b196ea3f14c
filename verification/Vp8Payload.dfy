// The VP8 payload format (RFC 7741): RtpVP8Parser reads the payload descriptor
// that section 4.2 defines, RtpVP8Fragmenter writes its shortest form.
module Vp8Payload {
  import opened Options
  import opened Bytes

  // ---- The descriptor --------------------------------------------------------------

  datatype PictureId = NoPicture | Short(id: bv8) | Long(wide: bv16)

  datatype Layer = Layer(tid: bv8, sync: bool)

  datatype Extension = Extension(picture: PictureId, tl0PicIdx: Option<byte>, layer: Option<Layer>, keyIdx: Option<byte>)

  datatype Descriptor = Descriptor(nonReference: bool, start: bool, partition: byte, extension: Option<Extension>)

  // Field widths, and partition indices that the parser accepts.
  predicate WellFormed(d: Descriptor) {
    && d.partition <= 8
    && (d.extension.Some? ==>
          var e := d.extension.value;
          && (e.picture.Short? ==> e.picture.id < 0x80) && (e.picture.Long? ==> e.picture.wide < 0x8000)
          && (e.layer.Some? ==> e.layer.value.tid < 4) && (e.keyIdx.Some? ==> e.keyIdx.value < 0x20))
  }

  function Flag(b: bool, bit: byte): byte { if b then bit else 0 }

  function PictureBytes(p: PictureId): seq<byte> {
    match p
    case NoPicture => []
    case Short(id) => [id]
    case Long(wide) => [((wide >> 8) as bv8) | 0x80, (wide & 0xff) as bv8]
  }

  function LayerBytes(layer: Option<Layer>, keyIdx: Option<byte>): seq<byte> {
    if layer.None? && keyIdx.None? then []
    else
      var t := if layer.Some? then (layer.value.tid << 6) | Flag(layer.value.sync, 0x20) else 0;
      [t | if keyIdx.Some? then keyIdx.value else 0]
  }

  function ExtensionBytes(e: Extension): seq<byte> {
    var flags := Flag(!e.picture.NoPicture?, 0x80) | Flag(e.tl0PicIdx.Some?, 0x40) | Flag(e.layer.Some?, 0x20) | Flag(e.keyIdx.Some?, 0x10);
    [flags] + (PictureBytes(e.picture) + ((if e.tl0PicIdx.Some? then [e.tl0PicIdx.value] else []) + LayerBytes(e.layer, e.keyIdx)))
  }

  function FirstByte(d: Descriptor): byte {
    Flag(d.extension.Some?, 0x80) | Flag(d.nonReference, 0x20) | Flag(d.start, 0x10) | d.partition
  }

  // The descriptor on the wire.
  function Serialize(d: Descriptor): seq<byte> {
    [FirstByte(d)] + (if d.extension.Some? then ExtensionBytes(d.extension.value) else [])
  }

  // ---- The parser, as a function of the bytes -----------------------------------------

  // What the fields of RTPPayloadVP8 are given. The data is unset when the parser
  // returns early.
  datatype Parsed = Parsed(descriptor: Descriptor, keyFrame: bool, data: seq<byte>) | Malformed(start: bool)

  // Each field reader: the field and the bytes behind it, or nothing if they run out.

  function ReadPicture(s: seq<byte>): Option<(PictureId, seq<byte>)> {
    if s == [] then None
    else if s[0] & 0x80 != 0 then
      if |s| < 2 then None else Some((Long((((s[0] & 0x7f) as bv16) << 8) + (s[1] as bv16)), s[2..]))
    else Some((Short(s[0] & 0x7f), s[1..]))
  }

  function ReadLayer(s: seq<byte>, hasTid: bool, hasKeyIdx: bool): Option<(Option<Layer>, Option<byte>, seq<byte>)> {
    if s == [] then None
    else Some((if hasTid then Some(Layer((s[0] >> 6) & 0x03, s[0] & 0x20 != 0)) else None,
               if hasKeyIdx then Some(s[0] & 0x1f) else None, s[1..]))
  }

  // Behind the flags of the extension.
  function ReadFields(hasPicture: bool, hasTl0: bool, hasTid: bool, hasKeyIdx: bool, s: seq<byte>): Option<(Extension, seq<byte>)> {
    var r1 := if hasPicture then ReadPicture(s) else Some((NoPicture, s));
    if r1.None? || (hasTl0 && r1.value.1 == []) then None
    else
      var s1 := r1.value.1;
      var tl0, s2 := if hasTl0 then Some(s1[0]) else None, if hasTl0 then s1[1..] else s1;
      var r3 := if hasTid || hasKeyIdx then ReadLayer(s2, hasTid, hasKeyIdx) else Some((None, None, s2));
      if r3.None? then None
      else Some((Extension(r1.value.0, tl0, r3.value.0, r3.value.1), r3.value.2))
  }

  function ReadExtension(s: seq<byte>): Option<(Extension, seq<byte>)> {
    if s == [] then None
    else ReadFields(s[0] & 0x80 != 0, s[0] & 0x40 != 0, s[0] & 0x20 != 0, s[0] & 0x10 != 0, s[1..])
  }

  predicate KeyFrame(start: bool, partition: byte, rest: seq<byte>)
    requires rest != []
  {
    start && partition == 0 && rest[0] & 0x01 == 0
  }

  // Behind the first byte of the descriptor.
  function ParseRest(hasExtension: bool, nonReference: bool, start: bool, partition: byte, s: seq<byte>): Parsed {
    if partition > 8 then Malformed(start)
    else
      var r := if hasExtension then ReadExtension(s) else None;
      if hasExtension && r.None? then Malformed(start)
      else
        var rest := if hasExtension then r.value.1 else s;
        if rest == [] then Malformed(start)
        else
          var d := Descriptor(nonReference, start, partition, if hasExtension then Some(r.value.0) else None);
          Parsed(d, KeyFrame(start, partition, rest), rest)
  }

  function Parse(s: seq<byte>): Parsed
    requires s != []
  {
    ParseRest(s[0] & 0x80 != 0, s[0] & 0x20 != 0, s[0] & 0x10 != 0, s[0] & 0x0f, s[1..])
  }

  lemma Even(b: byte)
    ensures b & 0x01 == 0 <==> b % 2 == 0
  {
  }

  // ---- Which payloads are parsed -----------------------------------------------------------

  // The octets of the descriptor, as its flags announce them. The picture number has two
  // octets if its first bit is set.
  function DescriptorLength(s: seq<byte>): nat {
    var flags := At(s, 1);
    if At(s, 0) & 0x80 == 0 then 1
    else
      2 + (if flags & 0x80 == 0 then 0 else if At(s, 2) & 0x80 == 0 then 1 else 2)
      + (if flags & 0x40 == 0 then 0 else 1) + (if flags & 0x30 == 0 then 0 else 1)
  }

  // A payload is parsed exactly if its partition index is at most 8 and something follows
  // the announced descriptor; that is the data.
  lemma ParsedExactly(s: seq<byte>)
    requires s != []
    ensures Parse(s).Parsed? <==> s[0] & 0x0f <= 8 && |s| > DescriptorLength(s)
    ensures Parse(s).Parsed? ==> Parse(s).data == s[DescriptorLength(s)..]
    ensures s[0] & 0x10 != 0 <==> if Parse(s).Parsed? then Parse(s).descriptor.start else Parse(s).start
  {
    hide ReadExtension, KeyFrame;
    if s[0] & 0x80 != 0 {
      ExtensionRead(s[1..]);
      assert DescriptorLength(s) == 1 + ExtensionLength(s[1..]);
      if |s| > DescriptorLength(s) {
        assert s[1..][ExtensionLength(s[1..])..] == s[DescriptorLength(s)..];
      }
    }
  }

  function ExtensionLength(s: seq<byte>): nat {
    var flags := At(s, 0);
    1 + (if flags & 0x80 == 0 then 0 else if At(s, 1) & 0x80 == 0 then 1 else 2)
    + (if flags & 0x40 == 0 then 0 else 1) + (if flags & 0x30 == 0 then 0 else 1)
  }

  lemma ExtensionRead(s: seq<byte>)
    ensures ReadExtension(s).Some? <==> |s| >= ExtensionLength(s)
    ensures ReadExtension(s).Some? ==> ReadExtension(s).value.1 == s[ExtensionLength(s)..]
  {
    if s != [] {
      var rest, flags := s[1..], s[0];
      AnyFlag(flags);
      PictureRead(rest);
      var n := if flags & 0x80 == 0 then 0 else if At(rest, 0) & 0x80 == 0 then 1 else 2;
      FieldsRead(flags & 0x80 != 0, flags & 0x40 != 0, flags & 0x20 != 0, flags & 0x10 != 0, rest, n);
      hide ReadFields, ReadPicture;
    }
  }

  lemma AnyFlag(flags: byte)
    ensures flags & 0x30 != 0 <==> flags & 0x20 != 0 || flags & 0x10 != 0
  {
  }

  lemma PictureRead(s: seq<byte>)
    ensures var n := if At(s, 0) & 0x80 == 0 then 1 else 2;
      (ReadPicture(s).Some? <==> |s| >= n) && (ReadPicture(s).Some? ==> ReadPicture(s).value.1 == s[n..])
  {
  }

  lemma FieldsRead(hasPicture: bool, hasTl0: bool, hasTid: bool, hasKeyIdx: bool, s: seq<byte>, n: nat)
    requires hasPicture ==> (ReadPicture(s).Some? <==> |s| >= n) && (ReadPicture(s).Some? ==> ReadPicture(s).value.1 == s[n..])
    requires !hasPicture ==> n == 0
    ensures var m, r := n + (if hasTl0 then 1 else 0) + (if hasTid || hasKeyIdx then 1 else 0),
                        ReadFields(hasPicture, hasTl0, hasTid, hasKeyIdx, s);
      (r.Some? <==> |s| >= m) && (r.Some? ==> r.value.1 == s[m..])
  {
    hide ReadPicture;
  }

  lemma FirstByteBits(d: Descriptor)
    requires WellFormed(d)
    ensures var b := FirstByte(d);
      && (b & 0x80 != 0 <==> d.extension.Some?) && (b & 0x20 != 0 <==> d.nonReference)
      && (b & 0x10 != 0 <==> d.start) && b & 0x0f == d.partition
  {
  }

  lemma PictureRoundTrip(p: PictureId, rest: seq<byte>)
    requires !p.NoPicture? && (p.Short? ==> p.id < 0x80) && (p.Long? ==> p.wide < 0x8000)
    ensures ReadPicture(PictureBytes(p) + rest) == Some((p, rest))
  {
    assert (PictureBytes(p) + rest)[|PictureBytes(p)|..] == rest;
  }

  lemma LayerRoundTrip(layer: Option<Layer>, keyIdx: Option<byte>, rest: seq<byte>)
    requires layer.Some? || keyIdx.Some?
    requires (layer.Some? ==> layer.value.tid < 4) && (keyIdx.Some? ==> keyIdx.value < 0x20)
    ensures ReadLayer(LayerBytes(layer, keyIdx) + rest, layer.Some?, keyIdx.Some?) == Some((layer, keyIdx, rest))
  {
    assert (LayerBytes(layer, keyIdx) + rest)[1..] == rest;
  }

  lemma FlagBits(a: bool, b: bool, c: bool, d: bool)
    ensures var f := Flag(a, 0x80) | Flag(b, 0x40) | Flag(c, 0x20) | Flag(d, 0x10);
      && (f & 0x80 != 0 <==> a) && (f & 0x40 != 0 <==> b) && (f & 0x20 != 0 <==> c) && (f & 0x10 != 0 <==> d)
  {
  }

  lemma FieldsRoundTrip(e: Extension, rest: seq<byte>)
    requires WellFormed(Descriptor(false, false, 0, Some(e)))
    ensures var tl0Bytes := if e.tl0PicIdx.Some? then [e.tl0PicIdx.value] else [];
      ReadFields(!e.picture.NoPicture?, e.tl0PicIdx.Some?, e.layer.Some?, e.keyIdx.Some?,
                 PictureBytes(e.picture) + (tl0Bytes + (LayerBytes(e.layer, e.keyIdx) + rest))) == Some((e, rest))
  {
    var tl0Bytes := if e.tl0PicIdx.Some? then [e.tl0PicIdx.value] else [];
    var s2 := LayerBytes(e.layer, e.keyIdx) + rest;
    var s1 := tl0Bytes + s2;
    if !e.picture.NoPicture? {
      PictureRoundTrip(e.picture, s1);
    } else {
      assert PictureBytes(e.picture) + s1 == s1;
    }
    if e.layer.Some? || e.keyIdx.Some? {
      LayerRoundTrip(e.layer, e.keyIdx, rest);
    } else {
      assert s2 == rest;
    }
    assert if e.tl0PicIdx.Some? then s1[0] == e.tl0PicIdx.value && s1[1..] == s2 else s1 == s2;
    hide ReadPicture, ReadLayer, PictureBytes, LayerBytes, Flag, WellFormed;
  }

  lemma ExtensionRoundTrip(e: Extension, rest: seq<byte>)
    requires WellFormed(Descriptor(false, false, 0, Some(e)))
    ensures ReadExtension(ExtensionBytes(e) + rest) == Some((e, rest))
  {
    var flags := Flag(!e.picture.NoPicture?, 0x80) | Flag(e.tl0PicIdx.Some?, 0x40) | Flag(e.layer.Some?, 0x20) | Flag(e.keyIdx.Some?, 0x10);
    var tl0Bytes := if e.tl0PicIdx.Some? then [e.tl0PicIdx.value] else [];
    var fields := PictureBytes(e.picture) + (tl0Bytes + (LayerBytes(e.layer, e.keyIdx) + rest));
    assert ExtensionBytes(e) + rest == [flags] + fields;
    FlagBits(!e.picture.NoPicture?, e.tl0PicIdx.Some?, e.layer.Some?, e.keyIdx.Some?);
    FieldsRoundTrip(e, rest);
    hide ReadFields, PictureBytes, LayerBytes, Flag, ExtensionBytes, WellFormed;
  }

  lemma ParseFlags(d: Descriptor, s: seq<byte>)
    requires WellFormed(d)
    ensures Parse([FirstByte(d)] + s) == ParseRest(d.extension.Some?, d.nonReference, d.start, d.partition, s)
  {
    FirstByteBits(d);
    assert ([FirstByte(d)] + s)[1..] == s;
    hide ParseRest, FirstByte, WellFormed;
  }

  // Parsing inverts serialisation for every descriptor and every non-empty payload. It is
  // a key frame if it starts partition 0 with an even octet.
  lemma ParseRoundTrip(d: Descriptor, payload: seq<byte>)
    requires WellFormed(d) && payload != []
    ensures Parse(Serialize(d) + payload) == Parsed(d, d.start && d.partition == 0 && payload[0] % 2 == 0, payload)
  {
    assert payload[0] & 0x01 == 0 <==> payload[0] % 2 == 0 by { Even(payload[0]); }
    var rest := (if d.extension.Some? then ExtensionBytes(d.extension.value) else []) + payload;
    assert Serialize(d) + payload == [FirstByte(d)] + rest;
    ParseFlags(d, rest);
    assert !(d.partition > 8);
    if d.extension.Some? {
      ExtensionRoundTrip(d.extension.value, payload);
    } else {
      assert rest == payload;
    }
    hide Parse, ReadExtension, ExtensionBytes, FirstByte, Flag, KeyFrame, WellFormed, Serialize;
  }
}
