// unpack_data of libfaros.py, with the header and sample layouts of
// get_packet_header and get_data_packet: one validated frame becomes the
// samples pushed to the stream outlets.

module FrameDecoder {
  import opened Bytes
  import opened FrameLayout

  type bit = x: int | 0 <= x < 2

  /** The 8-byte frame header: signature, the flag byte read most significant bit first, packet number. */
  datatype Header = Header(
    sig: seq<byte>,
    batteryH: bit,
    batteryL: bit,
    rrError: bit,
    dummy4: bit,
    dummy3: bit,
    dummy2: bit,
    dummy1: bit,
    rrInPacket: bit,
    pn: u32)

  /** The flag byte that holds a header's eight bits, battery_h as its most significant bit. */
  function FlagByte(h: Header): byte
  {
    128 * h.batteryH + 64 * h.batteryL + 32 * h.rrError + 16 * h.dummy4
    + 8 * h.dummy3 + 4 * h.dummy2 + 2 * h.dummy1 + h.rrInPacket
  }

  /**
   * get_packet_header parsed over packet[0:8]: three signature bytes, a
   * BitStruct of eight one-bit fields, and a 32-bit field with its bytes
   * swapped, which makes the packet number little-endian.
   */
  function ParseHeader(b: seq<byte>): (h: Header)
    requires |b| == 8
    ensures h.sig == b[..3] && FlagByte(h) == b[3] && h.pn == U32(b[4..])
  {
    var f := b[3];
    BitsOfByte(f);
    Header(b[..3], Bit(f, 7), Bit(f, 6), Bit(f, 5), Bit(f, 4), Bit(f, 3), Bit(f, 2), Bit(f, 1), Bit(f, 0), U32(b[4..]))
  }

  /** f shifted right by k bits. */
  function Shr(f: nat, k: nat): nat
  {
    if k == 0 then f else Shr(f, k - 1) / 2
  }

  /** Bit k of f, bit 0 being the least significant. */
  function Bit(f: nat, k: nat): bit
  {
    Shr(f, k) % 2
  }

  /** A byte is the sum of its eight bits. */
  lemma BitsOfByte(f: byte)
    ensures f == 128 * Bit(f, 7) + 64 * Bit(f, 6) + 32 * Bit(f, 5) + 16 * Bit(f, 4)
                 + 8 * Bit(f, 3) + 4 * Bit(f, 2) + 2 * Bit(f, 1) + Bit(f, 0)
  {
    assert f == 2 * Shr(f, 1) + Bit(f, 0);
    assert Shr(f, 1) == 2 * Shr(f, 2) + Bit(f, 1);
    assert Shr(f, 2) == 2 * Shr(f, 3) + Bit(f, 2);
    assert Shr(f, 3) == 2 * Shr(f, 4) + Bit(f, 3);
    assert Shr(f, 4) == 2 * Shr(f, 5) + Bit(f, 4);
    assert Shr(f, 5) == 2 * Shr(f, 6) + Bit(f, 5);
    assert Shr(f, 6) == 2 * Shr(f, 7) + Bit(f, 6);
    assert Shr(f, 7) == Bit(f, 7) by {
      assert Shr(f, 1) < 128 && Shr(f, 2) < 64 && Shr(f, 3) < 32 && Shr(f, 4) < 16;
      assert Shr(f, 5) < 8 && Shr(f, 6) < 4;
    }
  }

  /** Halving 2 * hi + lo, lo a bit, gives hi back with lo as the remainder. */
  lemma HalveBit(hi: nat, lo: bit)
    ensures (2 * hi + lo) / 2 == hi && (2 * hi + lo) % 2 == lo
  {
  }

  /** The 8 bytes that carry a header. */
  function EncodeHeader(h: Header): (b: seq<byte>)
    requires |h.sig| == 3
    ensures |b| == 8
  {
    h.sig + [FlagByte(h)] + EncodeU32(h.pn)
  }

  lemma HeaderRoundTrip(h: Header, b: seq<byte>)
    requires |h.sig| == 3 && |b| == 8
    ensures ParseHeader(EncodeHeader(h)) == h
    ensures EncodeHeader(ParseHeader(b)) == b
  {
    var e := EncodeHeader(h);
    U32RoundTrip(h.pn, b[4..]);
    assert e[4..] == EncodeU32(h.pn);
    FlagBits(h);
    var p := ParseHeader(b);
    assert EncodeHeader(p) == b[..3] + [b[3]] + b[4..];
  }

  /** Reading the flag byte of a header bit by bit gives back its eight bits. */
  lemma FlagBits(h: Header)
    ensures var f := FlagByte(h);
            Bit(f, 7) == h.batteryH && Bit(f, 6) == h.batteryL && Bit(f, 5) == h.rrError
            && Bit(f, 4) == h.dummy4 && Bit(f, 3) == h.dummy3 && Bit(f, 2) == h.dummy2
            && Bit(f, 1) == h.dummy1 && Bit(f, 0) == h.rrInPacket
  {
    var f := FlagByte(h);
    var f6 := 2 * h.batteryH + h.batteryL;
    var f5 := 2 * f6 + h.rrError;
    var f4 := 2 * f5 + h.dummy4;
    var f3 := 2 * f4 + h.dummy3;
    var f2 := 2 * f3 + h.dummy2;
    var f1 := 2 * f2 + h.dummy1;
    assert f == 2 * f1 + h.rrInPacket;
    HalveBit(f1, h.rrInPacket);
    HalveBit(f2, h.dummy1);
    HalveBit(f3, h.dummy2);
    HalveBit(f4, h.dummy3);
    HalveBit(f5, h.dummy4);
    HalveBit(f6, h.rrError);
    HalveBit(h.batteryH, h.batteryL);
    assert Shr(f, 1) == f1 && Shr(f, 2) == f2 && Shr(f, 3) == f3 && Shr(f, 4) == f4;
    assert Shr(f, 5) == f5 && Shr(f, 6) == f6 && Shr(f, 7) == h.batteryH;
  }

  // ----- Sample sections -----

  /** Python's xs[start::step]. */
  function Strided(xs: seq<int>, start: nat, step: nat): seq<int>
    requires step > 0
    decreases |xs| - start
  {
    if start >= |xs| then [] else [xs[start]] + Strided(xs, start + step, step)
  }

  /** [xs[i::n] for i in range(n)]: channel-major blocks regrouped into per-sample rows. */
  function Transpose(xs: seq<int>, n: nat): (rows: seq<seq<int>>)
    requires n > 0
    ensures |rows| == n
  {
    seq(n, i requires 0 <= i < n => Strided(xs, i, n))
  }

  /** k * s as repeated addition, which keeps the index arithmetic below linear. */
  function Times(k: nat, s: nat): nat
  {
    if k == 0 then 0 else Times(k - 1, s) + s
  }

  lemma {:induction false} TimesIsMul(k: nat, s: nat)
    ensures Times(k, s) == k * s
  {
    if k > 0 {
      TimesIsMul(k - 1, s);
    }
  }

  /** xs[start::step] has `count` elements when `count` strides from `start` reach just past the end of xs. */
  lemma {:induction false} StridedLength(xs: seq<int>, start: nat, step: nat, count: nat)
    requires step > 0
    requires if count == 0 then start >= |xs| else start + Times(count - 1, step) < |xs| <= start + Times(count, step)
    ensures |Strided(xs, start, step)| == count
    decreases count
  {
    if count > 0 {
      if count > 1 {
        assert Times(count - 1, step) == Times(count - 2, step) + step;
      }
      StridedLength(xs, start + step, step, count - 1);
    }
  }

  /** Element j of xs[start::step] is xs[start + j * step], whenever that index lies inside xs. */
  lemma {:induction false} StridedElem(xs: seq<int>, start: nat, step: nat, j: nat)
    requires step > 0 && start + Times(j, step) < |xs|
    ensures j < |Strided(xs, start, step)| && Strided(xs, start, step)[j] == xs[start + Times(j, step)]
    decreases j
  {
    if j > 0 {
      assert Times(j, step) == Times(j - 1, step) + step;
      StridedElem(xs, start + step, step, j - 1);
    }
  }

  /** More whole blocks of n take up at least as many values. */
  lemma BlocksMonotone(c: nat, j: nat, n: nat)
    requires c <= j
    ensures c * n <= j * n
  {
    assert j * n == c * n + (j - c) * n;
  }

  /**
   * Transposing c blocks of n samples loses nothing: value k of the input is
   * found again in row k % n, column k / n.
   */
  lemma CellOf(xs: seq<int>, n: nat, c: nat, k: nat)
    requires n > 0 && |xs| == c * n && k < |xs|
    ensures k / n < c && |Transpose(xs, n)[k % n]| == c && Transpose(xs, n)[k % n][k / n] == xs[k]
  {
    var i, j := k % n, k / n;
    assert k == i + j * n;
    if c <= j {
      BlocksMonotone(c, j, n);
    }
    RowAt(xs, n, c, i);
  }

  /** Transposing c blocks of n samples gives rows of c values; row i holds sample i of every block. */
  lemma RowAt(xs: seq<int>, n: nat, c: nat, i: nat)
    requires n > 0 && |xs| == c * n && i < n
    ensures |Transpose(xs, n)[i]| == c
    ensures forall j :: 0 <= j < c ==> i + j * n < |xs| && Transpose(xs, n)[i][j] == xs[i + j * n]
  {
    TimesIsMul(c, n);
    if c > 0 {
      assert Times(c, n) == Times(c - 1, n) + n;
    }
    StridedLength(xs, i, n, c);
    forall j | 0 <= j < c ensures i + j * n < |xs| && Transpose(xs, n)[i][j] == xs[i + j * n] {
      TimesIsMul(j, n);
      BlocksMonotone(j + 1, c, n);
      assert (j + 1) * n == j * n + n;
      StridedElem(xs, i, n, j);
    }
  }

  // ----- unpack_data -----

  /** What unpack_data pushes to the outlets, in the order it pushes them. */
  datatype Event =
    | EcgSamples(samples: seq<int>)      // one ECG channel: the flat list of samples
    | EcgRows(rows: seq<seq<int>>)       // several ECG channels: one row of channel values per sample
    | AccRows(rows: seq<seq<int>>)       // one row of three axis values per sample
    | MarkerPush                         // push_sample([1])
    | RrPush(rr: int)
    | TempPush(raw: int)                 // the raw slot; the Celsius conversion is not modelled

  /** Which section parsers (and their outlets) exist; the marker parser always does. */
  datatype Parsers = Parsers(ecg: bool, acc: bool, rr: bool, temp: bool)

  /** The parsers can read their sections: the slicing step of a transposition is never 0. */
  predicate ParsersFit(l: Layout, p: Parsers)
  {
    (p.ecg && l.nEcgC > 1 ==> l.nEcgS > 0) && (p.acc ==> l.nAccS > 0)
  }

  /** streamer.py creates a section's parser and outlet exactly when the layout gives it samples. */
  function ParsersFor(l: Layout): (p: Parsers)
    ensures ParsersFit(l, p)
    ensures p.ecg <==> l.nEcgS > 0
    ensures p.acc <==> l.nAccS > 0
    ensures p.rr <==> l.nRrS > 0
    ensures p.temp <==> l.nTempS > 0
  {
    Parsers(l.nEcgS > 0, l.nAccS > 0, l.nRrS > 0, l.nTempS > 0)
  }

  /** The signed little-endian 16-bit slot at `at`. */
  function Slot(packet: seq<byte>, at: nat): int
    requires at + 2 <= |packet|
  {
    I16(packet[at], packet[at + 1])
  }

  function MarkerValue(l: Layout, packet: seq<byte>): int
    requires WellFormed(l) && |packet| == l.ps
  {
    Slot(packet, MarkerStart(l))
  }

  function RrValue(l: Layout, packet: seq<byte>): int
    requires WellFormed(l) && |packet| == l.ps
  {
    Slot(packet, RrStart(l))
  }

  function TempValue(l: Layout, packet: seq<byte>): int
    requires WellFormed(l) && |packet| == l.ps
  {
    Slot(packet, TempStart(l))
  }

  /** The ECG section as n_ecg_c * n_ecg_s signed samples, channel after channel. */
  function EcgValues(l: Layout, packet: seq<byte>): seq<int>
    requires WellFormed(l) && |packet| == l.ps
  {
    I16s(packet[EcgStart(l)..AccStart(l)], l.nEcgC * l.nEcgS)
  }

  /** The accelerometer section as 3 * n_acc_s signed samples, axis after axis. */
  function AccValues(l: Layout, packet: seq<byte>): seq<int>
    requires WellFormed(l) && |packet| == l.ps
  {
    I16s(packet[AccStart(l)..MarkerStart(l)], 3 * l.nAccS)
  }

  /** A frame's ECG push: the flat list for one channel, per-sample rows for several. */
  function EcgEvent(l: Layout, xs: seq<int>): Event
    requires l.nEcgC > 1 ==> l.nEcgS > 0
  {
    if l.nEcgC > 1 then EcgRows(Transpose(xs, l.nEcgS)) else EcgSamples(xs)
  }

  /** The ECG push of a frame, when the ECG parser exists. */
  function EcgPart(l: Layout, p: Parsers, packet: seq<byte>): seq<Event>
    requires WellFormed(l) && |packet| == l.ps && ParsersFit(l, p)
  {
    if p.ecg then [EcgEvent(l, EcgValues(l, packet))] else []
  }

  /** The accelerometer push, per-sample rows, when its parser exists. */
  function AccPart(l: Layout, p: Parsers, packet: seq<byte>): seq<Event>
    requires WellFormed(l) && |packet| == l.ps && ParsersFit(l, p)
  {
    if p.acc then [AccRows(Transpose(AccValues(l, packet), l.nAccS))] else []
  }

  /** The marker push, when the marker value is positive. */
  function MarkerPart(l: Layout, packet: seq<byte>): seq<Event>
    requires WellFormed(l) && |packet| == l.ps
  {
    if MarkerValue(l, packet) > 0 then [MarkerPush] else []
  }

  /** The RR push, when its parser exists and the header's rr_in_packet bit is set. */
  function RrPart(l: Layout, p: Parsers, packet: seq<byte>): seq<Event>
    requires WellFormed(l) && |packet| == l.ps
  {
    if p.rr && ParseHeader(packet[..8]).rrInPacket == 1 then [RrPush(RrValue(l, packet))] else []
  }

  /** The temperature push, when its parser exists. */
  function TempPart(l: Layout, p: Parsers, packet: seq<byte>): seq<Event>
    requires WellFormed(l) && |packet| == l.ps
  {
    if p.temp then [TempPush(TempValue(l, packet))] else []
  }

  /**
   * unpack_data over a validated frame: the sections present, each read at its
   * fixed offset, pushed in the order ECG, accelerometer, marker, RR and
   * temperature.
   */
  function UnpackData(l: Layout, p: Parsers, packet: seq<byte>): (events: seq<Event>)
    requires WellFormed(l) && |packet| == l.ps
    requires ParsersFit(l, p)
    ensures |events| <= 5
  {
    EcgPart(l, p, packet) + AccPart(l, p, packet) + MarkerPart(l, packet) + RrPart(l, p, packet) + TempPart(l, p, packet)
  }

  /** A push of unpack_data comes from one of its five sections. */
  lemma InUnpack(l: Layout, p: Parsers, packet: seq<byte>, e: Event)
    requires WellFormed(l) && |packet| == l.ps
    requires ParsersFit(l, p)
    ensures e in UnpackData(l, p, packet)
            <==> e in EcgPart(l, p, packet) || e in AccPart(l, p, packet) || e in MarkerPart(l, packet)
                 || e in RrPart(l, p, packet) || e in TempPart(l, p, packet)
  {
  }

  /** The marker sample [1] is pushed exactly when the signed marker value is positive. */
  lemma MarkerGating(l: Layout, p: Parsers, packet: seq<byte>)
    requires WellFormed(l) && |packet| == l.ps
    requires ParsersFit(l, p)
    ensures MarkerPush in UnpackData(l, p, packet) <==> MarkerValue(l, packet) > 0
  {
    InUnpack(l, p, packet, MarkerPush);
  }

  /** RR is pushed exactly when its parser exists and the header's rr_in_packet bit is set, with the slot's value. */
  lemma RrGating(l: Layout, p: Parsers, packet: seq<byte>)
    requires WellFormed(l) && |packet| == l.ps
    requires ParsersFit(l, p)
    ensures RrPush(RrValue(l, packet)) in UnpackData(l, p, packet)
            <==> p.rr && ParseHeader(packet[..8]).rrInPacket == 1
    ensures forall e :: e in UnpackData(l, p, packet) && e.RrPush? ==> e.rr == RrValue(l, packet)
  {
    InUnpack(l, p, packet, RrPush(RrValue(l, packet)));
    forall e | e in UnpackData(l, p, packet) && e.RrPush?
      ensures e.rr == RrValue(l, packet)
    {
      InUnpack(l, p, packet, e);
    }
  }

  /** Temperature is pushed exactly when its parser exists, with the raw value of its slot. */
  lemma TempGating(l: Layout, p: Parsers, packet: seq<byte>)
    requires WellFormed(l) && |packet| == l.ps
    requires ParsersFit(l, p)
    ensures TempPush(TempValue(l, packet)) in UnpackData(l, p, packet) <==> p.temp
    ensures forall e :: e in UnpackData(l, p, packet) && e.TempPush? ==> e.raw == TempValue(l, packet)
  {
    InUnpack(l, p, packet, TempPush(TempValue(l, packet)));
    forall e | e in UnpackData(l, p, packet) && e.TempPush?
      ensures e.raw == TempValue(l, packet)
    {
      InUnpack(l, p, packet, e);
    }
  }

  /**
   * The ECG section is pushed exactly when its parser exists: the flat samples
   * for one channel, per-sample rows for several.
   */
  lemma EcgGating(l: Layout, p: Parsers, packet: seq<byte>)
    requires WellFormed(l) && |packet| == l.ps
    requires ParsersFit(l, p)
    ensures p.ecg ==> EcgEvent(l, EcgValues(l, packet)) in UnpackData(l, p, packet)
    ensures forall e :: e in UnpackData(l, p, packet) && (e.EcgRows? || e.EcgSamples?) ==>
              p.ecg && e == EcgEvent(l, EcgValues(l, packet))
  {
    if p.ecg {
      InUnpack(l, p, packet, EcgEvent(l, EcgValues(l, packet)));
    }
    forall e | e in UnpackData(l, p, packet) && (e.EcgRows? || e.EcgSamples?)
      ensures p.ecg && e == EcgEvent(l, EcgValues(l, packet))
    {
      InUnpack(l, p, packet, e);
    }
  }

  /** The accelerometer section is pushed, as per-sample rows, exactly when its parser exists. */
  lemma AccGating(l: Layout, p: Parsers, packet: seq<byte>)
    requires WellFormed(l) && |packet| == l.ps
    requires ParsersFit(l, p)
    ensures p.acc ==> AccRows(Transpose(AccValues(l, packet), l.nAccS)) in UnpackData(l, p, packet)
    ensures forall e :: e in UnpackData(l, p, packet) && e.AccRows? ==>
              p.acc && e == AccRows(Transpose(AccValues(l, packet), l.nAccS))
  {
    if p.acc {
      InUnpack(l, p, packet, AccRows(Transpose(AccValues(l, packet), l.nAccS)));
    }
    forall e | e in UnpackData(l, p, packet) && e.AccRows?
      ensures p.acc && e == AccRows(Transpose(AccValues(l, packet), l.nAccS))
    {
      InUnpack(l, p, packet, e);
    }
  }

  // ----- Frames built from readings: what unpack_data recovers -----

  predicate IsI16(v: int) { -0x8000 <= v < 0x8000 }

  /** The values a frame carries, each section flat as on the wire (channel after channel). */
  datatype Reading = Reading(header: Header, ecg: seq<int>, acc: seq<int>, marker: int, rr: int, temp: int)

  /** A reading fits a layout: section lengths match and every value is a signed 16-bit integer. */
  predicate Fits(l: Layout, rd: Reading)
  {
    |rd.header.sig| == 3
    && |rd.ecg| == l.nEcgC * l.nEcgS && |rd.acc| == 3 * l.nAccS
    && (forall i :: 0 <= i < |rd.ecg| ==> IsI16(rd.ecg[i]))
    && (forall i :: 0 <= i < |rd.acc| ==> IsI16(rd.acc[i]))
    && IsI16(rd.marker) && IsI16(rd.rr) && IsI16(rd.temp)
  }

  function Zeros(n: nat): (z: seq<byte>)
    ensures |z| == n
  {
    seq(n, _ => 0)
  }

  /** The 2-byte slot of an optional field: present when `count` is 1. */
  function OptionalSlot(count: nat, v: int): (b: seq<byte>)
    requires IsI16(v)
    ensures |b| == 2 * (if count == 1 then 1 else 0)
  {
    if count == 1 then EncodeI16(v) else []
  }

  /**
   * The frame a device sends for a reading: header, ECG, accelerometer,
   * marker, the optional RR and temperature slots, 14 bytes the decoder does
   * not read, padding, and a 2-byte trailer.
   */
  function EncodeFrame(l: Layout, rd: Reading, trailer: seq<byte>): (f: seq<byte>)
    requires WellFormed(l) && Fits(l, rd) && |trailer| == 2
    ensures |f| == l.ps
  {
    EncodeHeader(rd.header) + EncodeI16s(rd.ecg) + EncodeI16s(rd.acc) + EncodeI16(rd.marker)
    + OptionalSlot(l.nRrS, rd.rr) + OptionalSlot(l.nTempS, rd.temp) + Zeros(14 + 2 * l.nPadd) + trailer
  }

  /** The pushes a reading calls for, stated on the reading's own values. */
  function Expected(l: Layout, rd: Reading): seq<Event>
  {
    (if l.nEcgS > 0 then [EcgEvent(l, rd.ecg)] else [])
    + (if l.nAccS > 0 then [AccRows(Transpose(rd.acc, l.nAccS))] else [])
    + (if rd.marker > 0 then [MarkerPush] else [])
    + (if l.nRrS > 0 && rd.header.rrInPacket == 1 then [RrPush(rd.rr)] else [])
    + (if l.nTempS > 0 then [TempPush(rd.temp)] else [])
  }

  /** Decoding a frame built from a reading, with the parsers streamer.py creates, recovers the reading. */
  lemma UnpackEncoded(l: Layout, rd: Reading, trailer: seq<byte>)
    requires WellFormed(l) && Fits(l, rd) && |trailer| == 2
    ensures UnpackData(l, ParsersFor(l), EncodeFrame(l, rd, trailer)) == Expected(l, rd)
  {
    DecodedParts(l, rd, trailer);
  }

  /** Each value unpack_data reads from a built frame is the reading's own. */
  lemma DecodedParts(l: Layout, rd: Reading, trailer: seq<byte>)
    requires WellFormed(l) && Fits(l, rd) && |trailer| == 2
    ensures var f := EncodeFrame(l, rd, trailer);
            ParseHeader(f[..8]) == rd.header
            && EcgValues(l, f) == rd.ecg && AccValues(l, f) == rd.acc
            && MarkerValue(l, f) == rd.marker
            && (l.nRrS == 1 ==> RrValue(l, f) == rd.rr)
            && (l.nTempS == 1 ==> TempValue(l, f) == rd.temp)
  {
    var f := EncodeFrame(l, rd, trailer);
    EncodedSections(l, rd, trailer);
    HeaderRoundTrip(rd.header, f[..8]);
    I16sRoundTrip(rd.ecg);
    I16sRoundTrip(rd.acc);
    SlotsOf(l, rd, trailer);
  }

  /** The header and sample sections of a built frame are the encodings of the reading's values. */
  lemma EncodedSections(l: Layout, rd: Reading, trailer: seq<byte>)
    requires WellFormed(l) && Fits(l, rd) && |trailer| == 2
    ensures var f := EncodeFrame(l, rd, trailer);
            f[..8] == EncodeHeader(rd.header)
            && f[EcgStart(l)..AccStart(l)] == EncodeI16s(rd.ecg)
            && f[AccStart(l)..MarkerStart(l)] == EncodeI16s(rd.acc)
  {
    var f := EncodeFrame(l, rd, trailer);
    var h, e, a := EncodeHeader(rd.header), EncodeI16s(rd.ecg), EncodeI16s(rd.acc);
    var rest := EncodeI16(rd.marker) + OptionalSlot(l.nRrS, rd.rr) + OptionalSlot(l.nTempS, rd.temp)
                + Zeros(14 + 2 * l.nPadd) + trailer;
    assert f == h + e + a + rest;
    assert EcgStart(l) == |h| && AccStart(l) == |h| + |e| && MarkerStart(l) == |h| + |e| + |a|;
    ThreeSlices(h, e, a, rest);
  }

  /** The first three parts of a concatenation are found again by slicing at their lengths. */
  lemma ThreeSlices(h: seq<byte>, e: seq<byte>, a: seq<byte>, rest: seq<byte>)
    ensures var f := h + e + a + rest;
            f[..|h|] == h && f[|h|..|h| + |e|] == e && f[|h| + |e|..|h| + |e| + |a|] == a
  {
    var f := h + e + a + rest;
    assert f[..|h|] == h;
    assert f[|h|..|h| + |e|] == e;
    assert f[|h| + |e|..|h| + |e| + |a|] == a;
  }

  /** The marker, RR and temperature slots of a built frame hold the reading's values. */
  lemma SlotsOf(l: Layout, rd: Reading, trailer: seq<byte>)
    requires WellFormed(l) && Fits(l, rd) && |trailer| == 2
    ensures var f := EncodeFrame(l, rd, trailer);
            MarkerValue(l, f) == rd.marker
            && (l.nRrS == 1 ==> RrValue(l, f) == rd.rr)
            && (l.nTempS == 1 ==> TempValue(l, f) == rd.temp)
  {
    var f := EncodeFrame(l, rd, trailer);
    var m := MarkerStart(l);
    var head := EncodeHeader(rd.header) + EncodeI16s(rd.ecg) + EncodeI16s(rd.acc);
    var rr := OptionalSlot(l.nRrS, rd.rr);
    var tail := OptionalSlot(l.nTempS, rd.temp) + Zeros(14 + 2 * l.nPadd) + trailer;
    assert f == head + EncodeI16(rd.marker) + rr + tail;
    assert |head| == m;
    I16RoundTrip(rd.marker, 0, 0);
    assert f[m] == EncodeI16(rd.marker)[0] && f[m + 1] == EncodeI16(rd.marker)[1];
    if l.nRrS == 1 {
      I16RoundTrip(rd.rr, 0, 0);
      assert f[m + 2] == rr[0] && f[m + 3] == rr[1];
    }
    if l.nTempS == 1 {
      I16RoundTrip(rd.temp, 0, 0);
      var t := TempStart(l);
      assert f[t] == tail[0] && f[t + 1] == tail[1];
    }
  }
}
