// RtpVP8Parser: the readers that move along the octets of the payload descriptor.
module Vp8Parser {
  import opened Options
  import opened Bytes
  import opened Vp8Payload

  // ParseVP8PictureID, from position at on.
  method ParsePictureId(data: seq<byte>, at: nat) returns (code: int, picture: PictureId, next: nat)
    requires at <= |data|
    ensures next <= |data|
    ensures ReadPicture(data[at..]) == if code == 0 then Some((picture, data[next..])) else None
  {
    next := at;
    if at == |data| {
      return -1, NoPicture, next;
    }
    var wide := (data[next] & 0x7f) as bv16;
    picture := Short(data[next] & 0x7f);
    if data[next] & 0x80 != 0 {
      next := next + 1;
      if next == |data| {
        return -1, NoPicture, next;
      }
      wide := (wide << 8) + (data[next] as bv16);
      picture := Long(wide);
    }
    next := next + 1;
    code := 0;
  }

  // ParseVP8Tl0PicIdx.
  method ParseTl0PicIdx(data: seq<byte>, at: nat) returns (code: int, tl0: byte, next: nat)
    requires at <= |data|
    ensures code == if at < |data| then 0 else -1
    ensures code == 0 ==> tl0 == data[at] && next == at + 1
    ensures next <= |data|
  {
    if at == |data| {
      return -1, 0, at;
    }
    return 0, data[at], at + 1;
  }

  // ParseVP8TIDAndKeyIdx.
  method ParseTidAndKeyIdx(data: seq<byte>, at: nat, hasTid: bool, hasKeyIdx: bool)
    returns (code: int, layer: Option<Layer>, keyIdx: Option<byte>, next: nat)
    requires at <= |data|
    ensures next <= |data|
    ensures ReadLayer(data[at..], hasTid, hasKeyIdx) == if code == 0 then Some((layer, keyIdx, data[next..])) else None
  {
    layer, keyIdx, next := None, None, at;
    if at == |data| {
      return -1, layer, keyIdx, next;
    }
    if hasTid {
      layer := Some(Layer((data[at] >> 6) & 0x03, data[at] & 0x20 != 0));
    }
    if hasKeyIdx {
      keyIdx := Some(data[at] & 0x1f);
    }
    next := at + 1;
    code := 0;
  }

  // The fields that the flags of the extension announce.
  method ParseFields(data: seq<byte>, at: nat, hasPicture: bool, hasTl0: bool, hasTid: bool, hasKeyIdx: bool)
    returns (code: int, e: Extension, next: nat)
    requires at <= |data|
    ensures next <= |data|
    ensures ReadFields(hasPicture, hasTl0, hasTid, hasKeyIdx, data[at..]) == if code == 0 then Some((e, data[next..])) else None
  {
    hide ReadPicture, ReadLayer;
    e := Extension(NoPicture, None, None, None);
    next := at;
    if hasPicture {
      var picture;
      code, picture, next := ParsePictureId(data, next);
      if code != 0 {
        return;
      }
      e := e.(picture := picture);
    }
    if hasTl0 {
      var tl0;
      code, tl0, next := ParseTl0PicIdx(data, next);
      if code != 0 {
        return;
      }
      e := e.(tl0PicIdx := Some(tl0));
    }
    if hasTid || hasKeyIdx {
      var layer, keyIdx;
      code, layer, keyIdx, next := ParseTidAndKeyIdx(data, next, hasTid, hasKeyIdx);
      if code != 0 {
        return;
      }
      e := e.(layer := layer, keyIdx := keyIdx);
    }
    code := 0;
  }

  // ParseVP8Extension.
  method ParseExtension(data: seq<byte>, at: nat) returns (code: int, e: Extension, next: nat)
    requires at <= |data|
    ensures next <= |data|
    ensures ReadExtension(data[at..]) == if code == 0 then Some((e, data[next..])) else None
  {
    hide ReadFields;
    e := Extension(NoPicture, None, None, None);
    if at == |data| {
      return -1, e, at;
    }
    var flags := data[at];
    assert data[at..][1..] == data[at + 1..];
    code, e, next := ParseFields(data, at + 1, flags & 0x80 != 0, flags & 0x40 != 0, flags & 0x20 != 0, flags & 0x10 != 0);
  }

  // parseVP8.
  method ParseVP8(data: seq<byte>) returns (vp8: Parsed)
    requires data != []
    ensures vp8 == Parse(data)
  {
    hide ReadExtension;
    var first := data[0];
    var d := Descriptor(first & 0x20 != 0, first & 0x10 != 0, first & 0x0f, None);
    if d.partition > 8 {
      return Malformed(d.start);
    }
    var at := 1;
    if first & 0x80 != 0 {
      var code, e;
      code, e, at := ParseExtension(data, at);
      if code != 0 {
        return Malformed(d.start);
      }
      d := d.(extension := Some(e));
    }
    if at == |data| {
      return Malformed(d.start);
    }
    var keyFrame := d.start && d.partition == 0 && data[at] & 0x01 == 0;
    vp8 := Parsed(d, keyFrame, data[at..]);
  }
}
