// get_packet_size of libfaros.py: the size of a streamed frame and of each of
// its sections, derived from the decoded device settings.

module FrameLayout {
  import opened Results
  import opened SettingsCodec

  /** The packet_size dictionary. The counts n_rr_s, n_temp_s and n_padd are 0 or 1. */
  datatype Layout = Layout(
    ps: nat,       // whole frame, in bytes
    ecgPs: nat,    // ECG section, in bytes
    accPs: nat,    // accelerometer section, in bytes
    nEcgC: nat,    // ECG channels
    nEcgS: nat,    // ECG samples per channel in one frame
    nAccS: nat,    // accelerometer samples per axis in one frame
    nRrS: nat,     // RR slots
    nTempS: nat,   // temperature slots
    nPadd: nat)    // 2-byte padding words

  /** Bytes of a frame outside the variable sections: header, marker, trailer and fixed fields. */
  const Overhead: nat := 26

  /** The sizes agree with one another and the frame is a whole number of 32-bit words. */
  predicate WellFormed(l: Layout)
  {
    l.ecgPs == 2 * (l.nEcgC * l.nEcgS)
    && l.accPs == 6 * l.nAccS
    && l.nRrS <= 1 && l.nTempS <= 1 && l.nPadd <= 1
    && l.ps == Overhead + l.ecgPs + l.accPs + 2 * l.nRrS + 2 * l.nTempS + 2 * l.nPadd
    && l.ps % 4 == 0
  }

  /** Python's int() of a one-character string: its value when it is an ASCII digit, else ValueError. */
  function DigitValue(c: char): (r: Option<nat>)
    ensures r.Some? <==> '0' <= c <= '9'
    ensures r.Some? ==> r.value < 10 && DigitChar(r.value) == c
  {
    if '0' <= c <= '9' then Some(c as int - '0' as int) else None
  }

  /**
   * A rate that int() turns into a multiple of 5, so that get_packet_size's
   * divisions by 5 are exact (Python 3 `/` yields a float otherwise).
   */
  predicate ExactRate(v: Val)
  {
    v.Num? && v.n % 5 == 0
  }

  /** Every rate of the ECG and accelerometer tables is exact. */
  lemma TableRatesExact(v: Val)
    ensures v in Values(EcgFsTable()) ==> ExactRate(v)
    ensures v in Values(AccFsTable()) ==> ExactRate(v)
  {
    if v in Values(EcgFsTable()) {
      var i :| 0 <= i < |EcgFsTable()| && EcgFsTable()[i].1 == v;
    }
    if v in Values(AccFsTable()) {
      var i :| 0 <= i < |AccFsTable()| && AccFsTable()[i].1 == v;
    }
  }

  /** 1 when a flag setting is 'on', else 0 (the `== 'on'` tests of get_packet_size). */
  function OnCount(v: Val): nat
  {
    if v == Word("on") then 1 else 0
  }

  /**
   * get_packet_size: a frame spans 200 ms, so a rate of f Hz gives f/5 samples;
   * ECG takes 2 bytes per sample and channel, the accelerometer 6 bytes per
   * sample; RR and temperature add 2 bytes each when on; 2 bytes of padding
   * make the total a multiple of 4. A channel count that is not a digit raises
   * ValueError (None).
   */
  function GetPacketSize(st: Settings): (r: Option<Layout>)
    requires ExactRate(st.ecgFs) && ExactRate(st.accFs)
    ensures r.Some? <==> '0' <= st.nEcg <= '9'
    ensures r.Some? ==> WellFormed(r.value)
  {
    match DigitValue(st.nEcg)
    case None => None
    case Some(channels) =>
      Some(Sized(channels, st.ecgFs.n / 5, st.accFs.n / 5, OnCount(st.ecgRr), OnCount(st.temperature)))
  }

  /** The layout for the given channel and sample counts and optional slots, padded to a multiple of 4. */
  function Sized(channels: nat, nEcgS: nat, nAccS: nat, nRr: nat, nTemp: nat): (l: Layout)
    requires nRr <= 1 && nTemp <= 1
    ensures WellFormed(l)
    ensures l.nEcgC == channels && l.nEcgS == nEcgS && l.nAccS == nAccS && l.nRrS == nRr && l.nTempS == nTemp
  {
    var samples := channels * nEcgS;
    var half := 13 + samples + 3 * nAccS + nRr + nTemp;
    var nPadd := if (2 * half) % 4 != 0 then 1 else 0;
    Align(half);
    Layout(2 * half + 2 * nPadd, 2 * samples, 6 * nAccS, channels, nEcgS, nAccS, nRr, nTemp, nPadd)
  }

  /** An even size that is not a multiple of 4 becomes one with 2 more bytes. */
  lemma Align(half: nat)
    ensures var n := 2 * half; (n + 2 * (if n % 4 != 0 then 1 else 0)) % 4 == 0
  {
  }

  /**
   * The rates of the tables are multiples of 5, so the sample counts are exact;
   * the optional slots follow the 'on'/'off' settings; padding is added only
   * when the unpadded size is not already a multiple of 4.
   */
  lemma PacketSizeExact(st: Settings)
    requires ExactRate(st.ecgFs) && ExactRate(st.accFs)
    requires '0' <= st.nEcg <= '9'
    ensures var l := GetPacketSize(st).value;
            5 * l.nEcgS == st.ecgFs.n && 5 * l.nAccS == st.accFs.n
            && DigitChar(l.nEcgC) == st.nEcg
            && (l.nRrS == 1 <==> st.ecgRr == Word("on"))
            && (l.nTempS == 1 <==> st.temperature == Word("on"))
            && (l.nPadd == 1 <==> (Overhead + l.ecgPs + l.accPs + 2 * l.nRrS + 2 * l.nTempS) % 4 != 0)
  {
  }

  // ----- Field positions inside a frame (the slices of unpack_data) -----

  function EcgStart(l: Layout): nat { 8 }
  function AccStart(l: Layout): nat { 8 + l.ecgPs }
  function MarkerStart(l: Layout): nat { 8 + l.ecgPs + l.accPs }
  function RrStart(l: Layout): nat { 10 + l.ecgPs + l.accPs }
  function TempStart(l: Layout): nat { 10 + l.ecgPs + l.accPs + 2 * l.nRrS }

  /**
   * In a well-formed layout the sections follow one another without overlap,
   * header, ECG, accelerometer, marker, RR, temperature, and all of them end
   * before the 2-byte CRC trailer, with 14 bytes plus padding unread between.
   */
  lemma FieldsInsideFrame(l: Layout)
    requires WellFormed(l)
    ensures 8 <= EcgStart(l) && EcgStart(l) + l.ecgPs == AccStart(l)
    ensures AccStart(l) + l.accPs == MarkerStart(l)
    ensures MarkerStart(l) + 2 == RrStart(l)
    ensures RrStart(l) + 2 * l.nRrS == TempStart(l)
    ensures TempStart(l) + 2 * l.nTempS + 14 + 2 * l.nPadd == l.ps - 2
    ensures l.ps >= 28
  {
  }

  /** Settings "32100t00": 3 ECG channels at 500 Hz, accelerometer at 20 Hz, RR and temperature off. */
  lemma ExampleSettings()
    ensures UnpackSettings("wms32100t00") == Ok(ExampleValues())
  {
    var s := "wms32100t00";
    assert Body(s) == "32100t00";
    EcgFsBijective();
    EcgResBijective();
    LookupAt(EcgFsTable(), 2);
    LookupAt(EcgResTable(), 1);
    UnpackOf(s, ExampleValues());
  }

  function ExampleValues(): Settings
  {
    Settings('3', Num(500), Num(1), Num(1), Word("off"), Num(20), Quarter, Word("off"))
  }

  /** Those settings give 652-byte frames: 100 ECG samples of 3 channels, 4 accelerometer samples, 2 padding bytes. */
  lemma ExampleLayout()
    ensures GetPacketSize(ExampleValues()) == Some(Layout(652, 600, 24, 3, 100, 4, 0, 0, 1))
  {
  }
}
