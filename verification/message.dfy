/**
 * The wire codec of src/message.rs.
 *
 * Every `f64` of the source is only ever copied as its IEEE 754 binary64 bit
 * pattern, so it is modelled as an opaque 64-bit word (`F64 = bv64`); bytes
 * are `bv8`. `write_f64::<BigEndian>` and `read_f64::<BigEndian>` become
 * `BE8` and `FromBE8`.
 */
module Message {

  import opened Wrappers

  type Byte = bv8
  type F64 = bv64

  /** Length of an encoded `DsMessage`: tag, ten 8-byte fields, hand byte. */
  const EncodedLength: nat := 82
  /** Number of 64-bit fields of a controller sample on the wire. */
  const FieldCount: nat := 10

  datatype Vec3 = Vec3(x: F64, y: F64, z: F64)
  datatype Vec2 = Vec2(x: F64, y: F64)
  datatype Quat = Quat(w: F64, i: F64, j: F64, k: F64)

  /** The part of a motion-controller sample that is put on the wire. */
  datatype ControllerData = ControllerData(pos: Vec3, rotQuat: Quat, joystick: Vec2, trigger: F64)

  datatype Hand = Left | Right

  /** Messages from the driver station to the robot. */
  datatype DsMessage = Sixense(data: ControllerData, hand: Hand)

  /** Messages from the robot to the driver station. */
  datatype RobotMessage = Gyro(value: F64)

  // ---------------------------------------------------------------------
  // Big-endian 64-bit words

  /** The eight bytes of `w`, most significant first. */
  function BE8(w: F64): (r: seq<Byte>)
    ensures |r| == 8
  {
    [ ((w >> 56) & 0xFF) as Byte, ((w >> 48) & 0xFF) as Byte,
      ((w >> 40) & 0xFF) as Byte, ((w >> 32) & 0xFF) as Byte,
      ((w >> 24) & 0xFF) as Byte, ((w >> 16) & 0xFF) as Byte,
      ((w >> 8) & 0xFF) as Byte, (w & 0xFF) as Byte ]
  }

  /** The word whose big-endian bytes are `s`: every 8-byte string is the
      big-endian image of the word read from it. */
  function FromBE8(s: seq<Byte>): (r: F64)
    requires |s| == 8
    ensures BE8(r) == s
  {
    var r := (s[0] as F64 << 56) | (s[1] as F64 << 48) | (s[2] as F64 << 40) | (s[3] as F64 << 32)
      | (s[4] as F64 << 24) | (s[5] as F64 << 16) | (s[6] as F64 << 8) | s[7] as F64;
    assert BE8(r) == [s[0], s[1], s[2], s[3], s[4], s[5], s[6], s[7]];
    r
  }

  /** Reading back a written word gives the word, bit for bit. */
  lemma FromBE8OfBE8(w: F64)
    ensures FromBE8(BE8(w)) == w
  {
  }

  // ---------------------------------------------------------------------
  // Encoding: DsMessage::encode

  /** The ten words of a sample in wire order: position x, y, z; quaternion
      w, i, j, k; joystick x, y; trigger. */
  function Fields(d: ControllerData): (r: seq<F64>)
    ensures |r| == FieldCount
  {
    [d.pos.x, d.pos.y, d.pos.z,
     d.rotQuat.w, d.rotQuat.i, d.rotQuat.j, d.rotQuat.k,
     d.joystick.x, d.joystick.y,
     d.trigger]
  }

  /** The byte that tags the hand: 0 for Left, 1 for Right. */
  function HandByte(hand: Hand): (b: Byte)
    ensures b == 0 <==> hand == Left
    ensures b == 1 <==> hand == Right
  {
    match hand
    case Left => 0
    case Right => 1
  }

  /** The big-endian images of `ws`, one after the other. */
  function BEAll(ws: seq<F64>): (r: seq<Byte>)
    ensures |r| == 8 * |ws|
  {
    if ws == [] then [] else BE8(ws[0]) + BEAll(ws[1..])
  }

  /** Word `k` of `ws` occupies bytes `8k .. 8k+7` of `BEAll(ws)`. */
  lemma {:induction false} BEAllAt(ws: seq<F64>, k: nat)
    requires k < |ws|
    ensures BEAll(ws)[8 * k .. 8 * k + 8] == BE8(ws[k])
  {
    if k > 0 {
      BEAllAt(ws[1..], k - 1);
      assert BEAll(ws) == BE8(ws[0]) + BEAll(ws[1..]);
      assert BEAll(ws)[8 * k .. 8 * k + 8] == BEAll(ws[1..])[8 * (k - 1) .. 8 * (k - 1) + 8];
    }
  }

  /** The wire image of a message: tag 0, the ten fields big-endian, the hand byte. */
  function Encoding(m: DsMessage): (r: seq<Byte>)
    ensures |r| == EncodedLength
  {
    [0] + BEAll(Fields(m.data)) + [HandByte(m.hand)]
  }

  /** What the reactor's invariant keeps of every queued datagram: tag 0 and a
      hand byte that is 0 or 1. */
  lemma EncodingFrame(m: DsMessage)
    ensures Encoding(m)[0] == 0 && Encoding(m)[EncodedLength - 1] <= 1
  {
    assert Encoding(m)[EncodedLength - 1] == HandByte(m.hand);
  }

  /** Appending one more word to the words already written. */
  lemma {:induction false} BEAllSnoc(ws: seq<F64>, w: F64)
    ensures BEAll(ws + [w]) == BEAll(ws) + BE8(w)
  {
    if ws != [] {
      assert (ws + [w])[1..] == ws[1..] + [w];
      BEAllSnoc(ws[1..], w);
    }
  }

  /** `write_f64::<BigEndian>` of field `k` (in wire order) onto a buffer that
      holds the tag byte and the first `k` fields. */
  method WriteField(msg: seq<Byte>, fields: seq<F64>, k: nat) returns (r: seq<Byte>)
    requires k < |fields|
    requires msg == [0] + BEAll(fields[..k])
    ensures r == [0] + BEAll(fields[..k + 1])
  {
    r := msg + BE8(fields[k]);
    BEAllSnoc(fields[..k], fields[k]);
    assert fields[..k] + [fields[k]] == fields[..k + 1];
  }

  /** `DsMessage::encode`: the tag byte, the ten fields of the sample in wire
      order, the hand byte, written one after the other into an empty buffer. */
  method Encode(m: DsMessage) returns (msg: seq<Byte>)
    ensures msg == Encoding(m)
  {
    var Sixense(data, hand) := m;
    var fields := Fields(data);
    msg := [];
    msg := msg + [0];
    assert fields[..0] == [];
    msg := WriteField(msg, fields, 0);  // pos.x
    msg := WriteField(msg, fields, 1);  // pos.y
    msg := WriteField(msg, fields, 2);  // pos.z
    msg := WriteField(msg, fields, 3);  // rot_quat w
    msg := WriteField(msg, fields, 4);  // rot_quat i
    msg := WriteField(msg, fields, 5);  // rot_quat j
    msg := WriteField(msg, fields, 6);  // rot_quat k
    msg := WriteField(msg, fields, 7);  // joystick.x
    msg := WriteField(msg, fields, 8);  // joystick.y
    msg := WriteField(msg, fields, 9);  // trigger
    assert fields[..10] == fields;
    msg := msg + [HandByte(hand)];
  }

  /** Where each part of a sample lands in its 82-byte encoding: the tag byte
      0, field `k` of `Fields` (in wire order) at bytes `1+8k .. 8+8k`, and
      the hand byte last. */
  lemma EncodingLayout(m: DsMessage)
    ensures |Encoding(m)| == 1 + 8 * FieldCount + 1 == 82
    ensures Encoding(m)[0] == 0
    ensures forall k :: 0 <= k < FieldCount ==>
      Encoding(m)[1 + 8 * k .. 9 + 8 * k] == BE8(Fields(m.data)[k])
    ensures Encoding(m)[81] == HandByte(m.hand)
  {
    forall k | 0 <= k < FieldCount
      ensures Encoding(m)[1 + 8 * k .. 9 + 8 * k] == BE8(Fields(m.data)[k])
    {
      FieldSlice(m, k);
    }
  }

  /** Field `k` in wire order is bytes `1+8k .. 8+8k` of the encoding. */
  lemma FieldSlice(m: DsMessage, k: nat)
    requires k < FieldCount
    ensures Encoding(m)[1 + 8 * k .. 9 + 8 * k] == BE8(Fields(m.data)[k])
    ensures FromBE8(Encoding(m)[1 + 8 * k .. 9 + 8 * k]) == Fields(m.data)[k]
  {
    var ws := Fields(m.data);
    BEAllAt(ws, k);
    assert Encoding(m)[1 + 8 * k .. 9 + 8 * k] == BEAll(ws)[8 * k .. 8 * k + 8];
    FromBE8OfBE8(ws[k]);
  }

  /** The same sample for the two hands: the encodings agree everywhere but in
      the last byte, which is 0 for Left and 1 for Right. */
  lemma HandsDifferOnlyInLastByte(d: ControllerData)
    ensures Encoding(Sixense(d, Left))[..81] == Encoding(Sixense(d, Right))[..81]
    ensures Encoding(Sixense(d, Left))[81] == 0
    ensures Encoding(Sixense(d, Right))[81] == 1
  {
    assert Encoding(Sixense(d, Left))[..81] == [0] + BEAll(Fields(d));
    assert Encoding(Sixense(d, Right))[..81] == [0] + BEAll(Fields(d));
  }

  /** No two messages share an encoding: every field and the hand can be read back. */
  lemma EncodingInjective(m1: DsMessage, m2: DsMessage)
    requires Encoding(m1) == Encoding(m2)
    ensures m1 == m2
  {
    forall k | 0 <= k < FieldCount
      ensures Fields(m1.data)[k] == Fields(m2.data)[k]
    {
      FieldSlice(m1, k);
      FieldSlice(m2, k);
    }
    assert Fields(m1.data) == Fields(m2.data);
    assert Encoding(m1)[81] == HandByte(m1.hand);
    assert Encoding(m2)[81] == HandByte(m2.hand);
  }

  // ---------------------------------------------------------------------
  // Decoding: RobotMessage::decode

  /** `std::io::Cursor` over the received bytes: the data and a read position. */
  datatype Cursor = Cursor(data: seq<Byte>, pos: nat)

  /** `read_u8`: one byte, or an end-of-input error. */
  function ReadU8(c: Cursor): (r: Option<(Byte, Cursor)>)
    ensures r.Some? <==> c.pos < |c.data|
    ensures r.Some? ==> r.value.0 == c.data[c.pos] && r.value.1 == Cursor(c.data, c.pos + 1)
  {
    if c.pos < |c.data| then Some((c.data[c.pos], Cursor(c.data, c.pos + 1))) else None
  }

  /** `read_f64::<BigEndian>`: eight bytes as a big-endian word, or an end-of-input error. */
  function ReadF64BE(c: Cursor): (r: Option<(F64, Cursor)>)
    ensures r.Some? <==> c.pos + 8 <= |c.data|
    ensures r.Some? ==> BE8(r.value.0) == c.data[c.pos .. c.pos + 8]
    ensures r.Some? ==> r.value.1 == Cursor(c.data, c.pos + 8)
  {
    if c.pos + 8 <= |c.data| then
      var w := FromBE8(c.data[c.pos .. c.pos + 8]);
      Some((w, Cursor(c.data, c.pos + 8)))
    else None
  }

  /** `RobotMessage::decode`: total over every byte string. Tag 0 followed by at
      least eight bytes is a gyro reading; any other input gives `None`. */
  function Decode(data: seq<Byte>): (r: Option<RobotMessage>)
    ensures r.Some? <==> |data| >= 9 && data[0] == 0
    ensures r.Some? ==> r.value == Gyro(FromBE8(data[1..9]))
  {
    match ReadU8(Cursor(data, 0))
    case None => None
    case Some((token, msg)) =>
      if token == 0 then
        match ReadF64BE(msg)
        case None => None
        case Some((value, _)) => Some(Gyro(value))
      else
        None
  }

  /** An empty datagram decodes to nothing. */
  lemma DecodeEmpty()
    ensures Decode([]) == None
  {
  }

  /** A non-zero tag decodes to nothing, whatever follows. */
  lemma DecodeUnknownTag(data: seq<Byte>)
    requires |data| > 0 && data[0] != 0
    ensures Decode(data) == None
  {
  }

  /** Tag 0 with fewer than eight following bytes decodes to nothing. */
  lemma DecodeShort(data: seq<Byte>)
    requires 0 < |data| < 9 && data[0] == 0
    ensures Decode(data) == None
  {
  }

  /** Tag 0 and a big-endian word decode to that word, bit for bit; trailing
      bytes are ignored. */
  lemma DecodeGyro(w: F64, rest: seq<Byte>)
    ensures Decode([0] + BE8(w) + rest) == Some(Gyro(w))
  {
    assert ([0] + BE8(w) + rest)[1..9] == BE8(w);
    FromBE8OfBE8(w);
  }
}
