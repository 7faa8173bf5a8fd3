// binary_time_to_unix_time of libfaros.py: the device clock as returned in
// reply to the 'wbagdt' command, a 3-byte echo, four time bytes and '\r'.

module DeviceClock {
  import opened Results
  import opened Bytes

  /** The bytes that Python's bytes.strip() removes: space, \t, \n, \v, \f and \r. */
  predicate IsSpace(b: byte)
  {
    b == 0x20 || 0x09 <= b <= 0x0d
  }

  function StripLeft(s: seq<byte>): (r: seq<byte>)
    ensures |r| <= |s| && r == s[|s| - |r|..]
    ensures r != [] ==> !IsSpace(r[0])
    ensures forall i :: 0 <= i < |s| - |r| ==> IsSpace(s[i])
  {
    if s != [] && IsSpace(s[0]) then StripLeft(s[1..]) else s
  }

  function StripRight(s: seq<byte>): (r: seq<byte>)
    ensures |r| <= |s| && r == s[..|r|]
    ensures r != [] ==> !IsSpace(r[|r| - 1])
    ensures forall i :: |r| <= i < |s| ==> IsSpace(s[i])
  {
    if s != [] && IsSpace(s[|s| - 1]) then StripRight(s[..|s| - 1]) else s
  }

  /** bytes.strip(): whitespace removed from both ends. */
  function Strip(s: seq<byte>): seq<byte>
  {
    StripRight(StripLeft(s))
  }

  /** Python's x[3:]. */
  function AfterEcho(x: seq<byte>): seq<byte>
  {
    if |x| >= 3 then x[3..] else []
  }

  /**
   * binary_time_to_unix_time as written: the reply after its 3-byte echo,
   * stripped of whitespace, must be exactly 4 bytes for struct.unpack("<L");
   * otherwise struct.error (None). The float() of the result is exact and not modelled.
   */
  function BinaryTimeToUnixTime(x: seq<byte>): (r: Option<u32>)
    ensures r.Some? <==> |Strip(AfterEcho(x))| == 4
  {
    var t := Strip(AfterEcho(x));
    if |t| == 4 then Some(U32(t)) else None
  }

  /** The corrected reading: the four bytes after the echo, little-endian, whatever their values. */
  function DeviceTime(x: seq<byte>): (r: Option<u32>)
    ensures r.Some? <==> |x| >= 7
  {
    if |x| >= 7 then Some(U32(x[3..7])) else None
  }

  /** The device's 8-byte reply carrying time `t`. */
  function TimeReply(echo: seq<byte>, t: u32): (x: seq<byte>)
    requires |echo| == 3
    ensures |x| == 8
  {
    U32RoundTrip(t, [0, 0, 0, 0]);
    echo + EncodeU32(t) + [0x0d]
  }

  /** The corrected reading recovers the time of every reply. */
  lemma DeviceTimeRoundTrip(echo: seq<byte>, t: u32)
    requires |echo| == 3
    ensures DeviceTime(TimeReply(echo, t)) == Some(t)
  {
    U32RoundTrip(t, [0, 0, 0, 0]);
    assert TimeReply(echo, t)[3..7] == EncodeU32(t);
  }

  /**
   * As written, strip() keeps the reply intact exactly when neither the first
   * nor the last time byte is whitespace; then both readings agree.
   */
  lemma StripAgrees(echo: seq<byte>, t: u32)
    requires |echo| == 3
    ensures var x := TimeReply(echo, t);
            BinaryTimeToUnixTime(x).Some? <==> !IsSpace(x[3]) && !IsSpace(x[6])
    ensures var x := TimeReply(echo, t);
            BinaryTimeToUnixTime(x).Some? ==> BinaryTimeToUnixTime(x) == DeviceTime(x) == Some(t)
  {
    var x := TimeReply(echo, t);
    var body := AfterEcho(x);
    assert |body| == 5 && body == x[3..];
    DeviceTimeRoundTrip(echo, t);
    var left := StripLeft(body);
    var stripped := Strip(body);
    if !IsSpace(x[3]) && !IsSpace(x[6]) {
      assert left == body;
      assert StripRight(body) == StripRight(body[..4]) == body[..4];
      assert stripped == x[3..7];
    } else if IsSpace(x[3]) {
      assert |left| < 5;
    } else {
      assert left == body;
      assert StripRight(body) == StripRight(body[..4]) == StripRight(body[..3]);
    }
  }

  /** A time whose low byte is a space: the reply as written raises struct.error, the corrected reading does not. */
  lemma SpaceInLowByte()
    ensures var x := TimeReply([0x77, 0x62, 0x61], 0x0302_0120);
            BinaryTimeToUnixTime(x).None? && DeviceTime(x) == Some(0x0302_0120)
  {
    var echo: seq<byte>, t: u32 := [0x77, 0x62, 0x61], 0x0302_0120;
    var x := TimeReply(echo, t);
    var e := EncodeU32(t);
    assert e[0] == 0x20;
    assert x[3] == e[0];
    StripAgrees(echo, t);
    DeviceTimeRoundTrip(echo, t);
  }
}
