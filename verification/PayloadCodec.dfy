/** Field-by-field payload codec of the joystick message. Floats travel as their 32-bit
    patterns. */
module PayloadCodec {
  import opened Bits
  import opened WireFormat

  const JOY_SIZE: nat := 22

  datatype JoyMsgs = JoyMsgs(
    timestamp: u64,
    axis0: u32,
    axis2: u32,
    button0: bool,
    button1: bool,
    button3: bool,
    button4: bool,
    button5: bool,
    button6: bool)

  function Flag(b: bool): byte { if b then 1 else 0 }

  function JoyBytes(v: JoyMsgs): (b: seq<byte>)
    ensures |b| == JOY_SIZE
  {
    LE(v.timestamp, 8) + LE(v.axis0, 4) + LE(v.axis2, 4)
    + [Flag(v.button0), Flag(v.button1), Flag(v.button3), Flag(v.button4), Flag(v.button5), Flag(v.button6)]
  }

  function ParseJoy(b: seq<byte>): (v: JoyMsgs)
    requires |b| >= JOY_SIZE
  {
    JoyMsgs(U64At(b, 0), U32At(b, 8), U32At(b, 12),
            b[16] != 0, b[17] != 0, b[18] != 0, b[19] != 0, b[20] != 0, b[21] != 0)
  }

  /** Decoding returns the encoded message bit for bit, whatever follows it in memory. */
  lemma JoyRoundTrip(v: JoyMsgs, rest: seq<byte>)
    ensures ParseJoy(JoyBytes(v) + rest) == v
  {
    var b := JoyBytes(v) + rest;
    assert b[0..8] == LE(v.timestamp, 8);
    assert b[8..12] == LE(v.axis0, 4);
    assert b[12..16] == LE(v.axis2, 4);
    FieldValues(v.axis0, v.axis2, v.timestamp);
  }

  /** Re-encoding a decoded payload gives the same bytes exactly when every button byte is
      0 or 1; any other non-zero byte is normalised to 1. */
  lemma JoyBytesOf(b: seq<byte>)
    requires |b| == JOY_SIZE
    ensures JoyBytes(ParseJoy(b)) == b <==> forall i :: 16 <= i < 22 ==> b[i] <= 1
  {
    var w := JoyBytes(ParseJoy(b));
    LEVal(b[0..8]);
    LEVal(b[8..12]);
    LEVal(b[12..16]);
    assert w[..16] == b[0..8] + b[8..12] + b[12..16] == b[..16];
    assert forall i :: 16 <= i < 22 ==> w[i] == (if b[i] != 0 then 1 else 0);
    if forall i :: 16 <= i < 22 ==> b[i] <= 1 {
      assert forall i :: 16 <= i < 22 ==> w[i] == b[i];
      assert w == w[..16] + w[16..] == b[..16] + b[16..] == b;
    }
  }

  method EncodePayload(v: JoyMsgs, out: array<byte>)
    requires out.Length >= JOY_SIZE
    modifies out
    ensures out[..JOY_SIZE] == JoyBytes(v) && out[JOY_SIZE..] == old(out[JOY_SIZE..])
  {
    EncodeWords(v, out);
    ghost var head, tail := out[..16], out[22..];
    assert tail == out[16..][6..] == old(out[16..])[6..];
    out[16] := Flag(v.button0);
    out[17] := Flag(v.button1);
    out[18] := Flag(v.button3);
    out[19] := Flag(v.button4);
    out[20] := Flag(v.button5);
    out[21] := Flag(v.button6);
    assert out[..16] == head && out[22..] == tail;
    assert out[..22] == out[..16] + out[16..22];
  }

  method EncodeWords(v: JoyMsgs, out: array<byte>)
    requires out.Length >= JOY_SIZE
    modifies out
    ensures out[..16] == LE(v.timestamp, 8) + LE(v.axis0, 4) + LE(v.axis2, 4)
    ensures out[16..] == old(out[16..])
  {
    EncodeU64(out, 0, v.timestamp);
    assert out[..8] == LE(v.timestamp, 8) && out[16..] == out[8..][8..];
    EncodeU32(out, 8, v.axis0);
    assert out[..12] == out[..8] + out[8..12] && out[16..] == out[12..][4..];
    EncodeU32(out, 12, v.axis2);
    assert out[..16] == out[..12] + out[12..16];
    assert old(out[16..]) == old(out[8..][8..]);
  }

  method DecodePayload(b: seq<byte>) returns (v: JoyMsgs)
    requires |b| >= JOY_SIZE
    ensures v == ParseJoy(b)
  {
    var timestamp := DecodeU64(b, 0);
    var axis0 := DecodeU32(b, 8);
    var axis2 := DecodeU32(b, 12);
    v := JoyMsgs(timestamp, axis0, axis2, b[16] != 0, b[17] != 0, b[18] != 0, b[19] != 0, b[20] != 0, b[21] != 0);
  }
}
