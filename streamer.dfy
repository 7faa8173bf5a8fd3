// StreamerThread.run of utilities.py: received chunks are appended to a
// buffer, one frame-sized candidate is cut per chunk, a candidate with the
// "MEP" signature and a matching CRC trailer is unpacked, and any other
// candidate makes the thread discard its buffer and wait for a chunk that
// starts with "MEP".

module Streamer {
  import opened Results
  import opened Bytes
  import opened FrameLayout
  import opened FrameDecoder

  /**
   * How the 2-byte trailer is read before it is compared with the CRC:
   * run() reads it with construct's Int16sl (signed); the CRC is unsigned.
   */
  datatype TrailerFormat = SignedLE | UnsignedLE

  function Trailer(fmt: TrailerFormat, lo: byte, hi: byte): int
  {
    match fmt
    case SignedLE => I16(lo, hi)
    case UnsignedLE => U16(lo, hi)
  }

  /**
   * The fixed parameters of a run: the frame layout, the trailer reading, and
   * crc16.crc16xmodem, an external function given here as a parameter; None
   * stands for the TypeError that run() catches.
   */
  datatype Config = Config(layout: Layout, fmt: TrailerFormat, crc: seq<byte> -> Option<u16>)

  /** `s` begins with the signature "MEP" (Python's s[0:3] == b'MEP'). */
  predicate StartsWithMep(s: seq<byte>)
  {
    |s| >= 3 && s[0] == 0x4d && s[1] == 0x45 && s[2] == 0x50
  }

  /** A candidate is passed on iff it starts with "MEP" and its trailer equals the CRC of the bytes before it. */
  predicate Acceptable(cfg: Config, packet: seq<byte>)
  {
    StartsWithMep(packet)
    && match cfg.crc(packet[..|packet| - 2])
       case None => false
       case Some(c) => Trailer(cfg.fmt, packet[|packet| - 2], packet[|packet| - 1]) == c
  }

  /**
   * The receive state: the buffer, and whether the thread is in the inner
   * resync loop. During a resync the buffer still holds the bytes after the
   * rejected candidate; they are never read again.
   */
  datatype Sync = Sync(data: seq<byte>, resyncing: bool)

  /** The state after a sequence of chunks, the frames passed on, in order, and the number of rejections. */
  datatype Trace = Trace(state: Sync, frames: seq<seq<byte>>, rejected: nat)

  /**
   * One received chunk. Outside a resync the chunk is appended and, once the
   * buffer holds a frame's worth, one candidate is cut from its front: an
   * acceptable one is passed on, any other starts a resync. During a resync a
   * chunk that starts with "MEP" replaces the buffer and any other is dropped.
   */
  function Advance(cfg: Config, t: Trace, chunk: seq<byte>): (u: Trace)
    ensures u.rejected == t.rejected + (if !t.state.resyncing && u.state.resyncing then 1 else 0)
  {
    var ps := cfg.layout.ps;
    if t.state.resyncing then
      Trace(if StartsWithMep(chunk) then Sync(chunk, false) else t.state, t.frames, t.rejected)
    else
      var d := t.state.data + chunk;
      if |d| < ps then Trace(Sync(d, false), t.frames, t.rejected)
      else if Acceptable(cfg, d[..ps]) then Trace(Sync(d[ps..], false), t.frames + [d[..ps]], t.rejected)
      else Trace(Sync(d[ps..], true), t.frames, t.rejected + 1)
  }

  /** Every frame is `ps` bytes long. */
  predicate FramesSized(frames: seq<seq<byte>>, ps: nat)
  {
    forall i :: 0 <= i < |frames| ==> |frames[i]| == ps
  }

  /** The chunks received in order, starting from state `st`. */
  function Feed(cfg: Config, st: Sync, chunks: seq<seq<byte>>): (t: Trace)
    ensures FramesSized(t.frames, cfg.layout.ps)
    decreases |chunks|
  {
    if chunks == [] then Trace(st, [], 0)
    else Advance(cfg, Feed(cfg, st, chunks[..|chunks| - 1]), chunks[|chunks| - 1])
  }

  /** The trace after one more chunk. */
  lemma FeedSnoc(cfg: Config, st: Sync, chunks: seq<seq<byte>>, k: nat)
    requires k < |chunks|
    ensures Feed(cfg, st, chunks[..k + 1]) == Advance(cfg, Feed(cfg, st, chunks[..k]), chunks[k])
  {
    assert chunks[..k + 1][..k] == chunks[..k];
  }

  /** Every frame of `frames` is frame-sized and acceptable. */
  predicate AllAcceptable(cfg: Config, frames: seq<seq<byte>>)
  {
    forall i :: 0 <= i < |frames| ==> |frames[i]| == cfg.layout.ps && Acceptable(cfg, frames[i])
  }

  /** Every frame passed on starts with "MEP" and carries a matching CRC trailer. */
  lemma {:induction false} FramesAcceptable(cfg: Config, st: Sync, chunks: seq<seq<byte>>)
    ensures AllAcceptable(cfg, Feed(cfg, st, chunks).frames)
    decreases |chunks|
  {
    if chunks != [] {
      var t := Feed(cfg, st, chunks[..|chunks| - 1]);
      var u := Feed(cfg, st, chunks);
      FramesAcceptable(cfg, st, chunks[..|chunks| - 1]);
      assert AllAcceptable(cfg, t.frames);
      assert u == Advance(cfg, t, chunks[|chunks| - 1]);
      AdvanceFrames(cfg, t, chunks[|chunks| - 1]);
      forall i | 0 <= i < |u.frames|
        ensures |u.frames[i]| == cfg.layout.ps && Acceptable(cfg, u.frames[i])
      {
        if i < |t.frames| {
          assert u.frames[i] == u.frames[..|t.frames|][i] == t.frames[i];
        }
      }
    }
  }

  /** A chunk passes on at most one frame, which is acceptable, and none during a resync. */
  lemma AdvanceFrames(cfg: Config, t: Trace, chunk: seq<byte>)
    ensures var u := Advance(cfg, t, chunk);
            u.frames == t.frames
            || (!t.state.resyncing && |u.frames| == |t.frames| + 1 && u.frames[..|t.frames|] == t.frames
                && |u.frames[|t.frames|]| == cfg.layout.ps && Acceptable(cfg, u.frames[|t.frames|]))
  {
    var d := t.state.data + chunk;
    var ps := cfg.layout.ps;
    if !t.state.resyncing && |d| >= ps && Acceptable(cfg, d[..ps]) {
      assert (t.frames + [d[..ps]])[..|t.frames|] == t.frames;
    }
  }

  /** Advancing does not look at the frames already passed on. */
  lemma AdvanceShift(cfg: Config, s: Sync, pre: seq<seq<byte>>, fs: seq<seq<byte>>, r0: nat, r: nat, chunk: seq<byte>)
    ensures var u := Advance(cfg, Trace(s, fs, r), chunk);
            Advance(cfg, Trace(s, pre + fs, r0 + r), chunk) == Trace(u.state, pre + u.frames, r0 + u.rejected)
  {
    var d := s.data + chunk;
    var ps := cfg.layout.ps;
    if !s.resyncing && |d| >= ps {
      assert (pre + fs) + [d[..ps]] == pre + (fs + [d[..ps]]);
    }
  }

  /**
   * Feeding two runs of chunks one after the other is feeding their
   * concatenation: the frames of the first run are passed on first and are
   * never revisited.
   */
  lemma {:induction false} FeedAppend(cfg: Config, st: Sync, a: seq<seq<byte>>, b: seq<seq<byte>>)
    ensures var ta := Feed(cfg, st, a);
            var tb := Feed(cfg, ta.state, b);
            Feed(cfg, st, a + b) == Trace(tb.state, ta.frames + tb.frames, ta.rejected + tb.rejected)
    decreases |b|
  {
    var ta := Feed(cfg, st, a);
    if b == [] {
      assert a + b == a;
    } else {
      var b' := b[..|b| - 1];
      var c := b[|b| - 1];
      assert (a + b)[..|a + b| - 1] == a + b';
      FeedAppend(cfg, st, a, b');
      var tb' := Feed(cfg, ta.state, b');
      AdvanceShift(cfg, tb'.state, ta.frames, tb'.frames, ta.rejected, tb'.rejected, c);
    }
  }

  /** All the bytes of a sequence of chunks, in order. */
  function Flatten(chunks: seq<seq<byte>>): seq<byte>
  {
    if chunks == [] then [] else Flatten(chunks[..|chunks| - 1]) + chunks[|chunks| - 1]
  }

  lemma FlattenSnoc(fs: seq<seq<byte>>, f: seq<byte>)
    ensures Flatten(fs + [f]) == Flatten(fs) + f
  {
    assert (fs + [f])[..|fs|] == fs;
  }

  /** Cutting a frame from the front of a buffer loses no byte. */
  lemma CutKeeps(fs: seq<seq<byte>>, d: seq<byte>, ps: nat)
    requires ps <= |d|
    ensures Flatten(fs + [d[..ps]]) + d[ps..] == Flatten(fs) + d
  {
    FlattenSnoc(fs, d[..ps]);
    assert d[..ps] + d[ps..] == d;
    assert (Flatten(fs) + d[..ps]) + d[ps..] == Flatten(fs) + (d[..ps] + d[ps..]);
  }

  /** Outside a resync, a chunk that causes no rejection keeps every byte, in order. */
  lemma AdvanceKeeps(cfg: Config, t: Trace, chunk: seq<byte>, prefix: seq<byte>, init: seq<seq<byte>>)
    requires !t.state.resyncing && Flatten(t.frames) + t.state.data == prefix + Flatten(init)
    requires Advance(cfg, t, chunk).rejected == t.rejected
    ensures var u := Advance(cfg, t, chunk);
            !u.state.resyncing && Flatten(u.frames) + u.state.data == prefix + Flatten(init + [chunk])
  {
    var d := t.state.data + chunk;
    var ps := cfg.layout.ps;
    var u := Advance(cfg, t, chunk);
    FlattenSnoc(init, chunk);
    assert prefix + Flatten(init + [chunk]) == (prefix + Flatten(init)) + chunk;
    assert Flatten(t.frames) + d == (Flatten(t.frames) + t.state.data) + chunk;
    if |d| >= ps {
      assert u == Trace(Sync(d[ps..], false), t.frames + [d[..ps]], t.rejected);
      CutKeeps(t.frames, d, ps);
    }
  }

  /**
   * Without a rejection no byte is lost or reordered: the frames passed on,
   * followed by the buffer, are the initial buffer followed by every chunk.
   */
  lemma {:induction false} Conservation(cfg: Config, st: Sync, chunks: seq<seq<byte>>)
    requires !st.resyncing
    requires Feed(cfg, st, chunks).rejected == 0
    ensures var t := Feed(cfg, st, chunks);
            !t.state.resyncing && Flatten(t.frames) + t.state.data == st.data + Flatten(chunks)
    decreases |chunks|
  {
    if chunks != [] {
      var init := chunks[..|chunks| - 1];
      var c := chunks[|chunks| - 1];
      var t := Feed(cfg, st, init);
      Conservation(cfg, st, init);
      AdvanceKeeps(cfg, t, c, st.data, init);
      assert init + [c] == chunks;
    }
  }

  /** During a resync, chunks that do not start with "MEP" are dropped and nothing is passed on. */
  lemma {:induction false} ResyncSkips(cfg: Config, rest: seq<byte>, skipped: seq<seq<byte>>)
    requires forall i :: 0 <= i < |skipped| ==> !StartsWithMep(skipped[i])
    ensures Feed(cfg, Sync(rest, true), skipped) == Trace(Sync(rest, true), [], 0)
    decreases |skipped|
  {
    if skipped != [] {
      ResyncSkips(cfg, rest, skipped[..|skipped| - 1]);
    }
  }

  /** The first chunk of a resync that starts with "MEP" becomes the whole buffer. */
  lemma ResyncToMep(cfg: Config, rest: seq<byte>, skipped: seq<seq<byte>>, chunk: seq<byte>)
    requires forall i :: 0 <= i < |skipped| ==> !StartsWithMep(skipped[i])
    requires StartsWithMep(chunk)
    ensures Feed(cfg, Sync(rest, true), skipped + [chunk]) == Trace(Sync(chunk, false), [], 0)
  {
    ResyncSkips(cfg, rest, skipped);
    assert (skipped + [chunk])[..|skipped|] == skipped;
  }

  /**
   * A stream in step with the device, each chunk one acceptable frame, has
   * every frame passed on, in arrival order, and leaves the buffer empty.
   */
  lemma {:induction false} AlignedDelivery(cfg: Config, frames: seq<seq<byte>>)
    requires forall i :: 0 <= i < |frames| ==> |frames[i]| == cfg.layout.ps && Acceptable(cfg, frames[i])
    ensures Feed(cfg, Sync([], false), frames) == Trace(Sync([], false), frames, 0)
    decreases |frames|
  {
    if frames != [] {
      var init := frames[..|frames| - 1];
      var f := frames[|frames| - 1];
      AlignedDelivery(cfg, init);
      assert [] + f == f && f[..cfg.layout.ps] == f && f[cfg.layout.ps..] == [];
      assert init + [f] == frames;
    }
  }

  /**
   * After a resync the buffer holds one frame, so delivery lags one chunk
   * behind: each further frame-sized chunk passes on the frame before it and
   * stays in the buffer itself.
   */
  lemma {:induction false} LaggedDelivery(cfg: Config, f: seq<byte>, post: seq<seq<byte>>)
    requires AllAcceptable(cfg, [f] + post)
    ensures Feed(cfg, Sync(f, false), post) == Trace(Sync(([f] + post)[|post|], false), ([f] + post)[..|post|], 0)
    decreases |post|
  {
    if post != [] {
      var init := post[..|post| - 1];
      var c := post[|post| - 1];
      var ps := cfg.layout.ps;
      assert [f] + init == ([f] + post)[..|post|];
      LaggedDelivery(cfg, f, init);
      var g := ([f] + init)[|init|];
      assert g == ([f] + post)[|init|] && c == ([f] + post)[|post|];
      var d := g + c;
      assert d[..ps] == g && d[ps..] == c;
      assert ([f] + init)[..|init|] + [g] == ([f] + post)[..|post|];
    }
  }

  /**
   * A resync that ends with a chunk shorter than a frame leaves the thread
   * exactly as if a fresh stream had started with that chunk: nothing is
   * delayed.
   */
  lemma ShortRestart(cfg: Config, c: seq<byte>, post: seq<seq<byte>>)
    requires |c| < cfg.layout.ps
    ensures Feed(cfg, Sync(c, false), post) == Feed(cfg, Sync([], false), [c] + post)
  {
    FeedAppend(cfg, Sync([], false), [c], post);
    assert [c][..0] == [];
    assert [] + c == c;
  }

  /** Acceptable frames `pre` followed by a frame-sized chunk that is not acceptable: one rejection, and a resync with an empty buffer. */
  lemma RejectAfter(cfg: Config, pre: seq<seq<byte>>, bad: seq<byte>)
    requires AllAcceptable(cfg, pre)
    requires |bad| == cfg.layout.ps && !Acceptable(cfg, bad)
    ensures Feed(cfg, Sync([], false), pre + [bad]) == Trace(Sync([], true), pre, 1)
  {
    var s0 := Sync([], false);
    var ps := cfg.layout.ps;
    AlignedDelivery(cfg, pre);
    assert (s0.data + bad)[..ps] == bad && (s0.data + bad)[ps..] == [] by {
      assert s0.data + bad == bad;
    }
    RejectionResyncs(cfg, s0, bad);
    FeedAppend(cfg, s0, pre, [bad]);
  }

  /**
   * Streaming recovers from a rejection. After acceptable frames `pre`, a
   * frame-sized chunk `bad` that is not acceptable is counted and starts a
   * resync; chunks not starting with "MEP" are dropped; the first acceptable
   * frame after them restarts the stream, and from then on every frame is
   * passed on, one chunk late.
   */
  lemma Recovery(cfg: Config, pre: seq<seq<byte>>, bad: seq<byte>, skipped: seq<seq<byte>>,
                 first: seq<byte>, post: seq<seq<byte>>)
    requires AllAcceptable(cfg, pre) && AllAcceptable(cfg, [first] + post)
    requires |bad| == cfg.layout.ps && !Acceptable(cfg, bad)
    requires forall i :: 0 <= i < |skipped| ==> !StartsWithMep(skipped[i])
    ensures Feed(cfg, Sync([], false), pre + [bad] + skipped + [first] + post)
            == Trace(Sync(([first] + post)[|post|], false), pre + ([first] + post)[..|post|], 1)
  {
    var s0 := Sync([], false);
    var a, b := pre + [bad], skipped + [first];
    RejectAfter(cfg, pre, bad);
    assert StartsWithMep(first) by {
      assert first == ([first] + post)[0];
    }
    Restart(cfg, a, pre, skipped, first);
    LaggedDelivery(cfg, first, post);
    FeedAppend(cfg, s0, a + b, post);
    Regroup(pre, bad, skipped, first, post);
  }

  /** During a resync with an empty buffer, skipped chunks and then an "MEP" chunk leave that chunk as the buffer. */
  lemma Restart(cfg: Config, a: seq<seq<byte>>, pre: seq<seq<byte>>, skipped: seq<seq<byte>>, first: seq<byte>)
    requires Feed(cfg, Sync([], false), a) == Trace(Sync([], true), pre, 1)
    requires forall i :: 0 <= i < |skipped| ==> !StartsWithMep(skipped[i])
    requires StartsWithMep(first)
    ensures Feed(cfg, Sync([], false), a + (skipped + [first])) == Trace(Sync(first, false), pre, 1)
  {
    ResyncToMep(cfg, [], skipped, first);
    FeedAppend(cfg, Sync([], false), a, skipped + [first]);
  }

  lemma Regroup<T>(pre: seq<T>, x: T, mid: seq<T>, y: T, post: seq<T>)
    ensures pre + [x] + (mid + [y]) + post == pre + [x] + mid + [y] + post
  {
  }

  /** A candidate that is not acceptable is never passed on: it starts a resync. */
  lemma RejectionResyncs(cfg: Config, st: Sync, chunk: seq<byte>)
    requires !st.resyncing && |st.data + chunk| >= cfg.layout.ps
    requires !Acceptable(cfg, (st.data + chunk)[..cfg.layout.ps])
    ensures Feed(cfg, st, [chunk]) == Trace(Sync((st.data + chunk)[cfg.layout.ps..], true), [], 1)
  {
    assert [chunk][..0] == [];
  }

  // ----- The signed trailer -----

  /** A frame as the device seals it: the body followed by its CRC, unsigned little-endian. */
  function Sealed(body: seq<byte>, crc: u16): (f: seq<byte>)
    ensures |f| == |body| + 2
  {
    body + EncodeU16(crc)
  }

  /**
   * A sealed frame that starts with "MEP" is accepted when the trailer is read
   * unsigned; read signed, as run() does, it is accepted only when its CRC is
   * below 0x8000.
   */
  lemma SealedAcceptance(layout: Layout, crc: seq<byte> -> Option<u16>, body: seq<byte>)
    requires StartsWithMep(body) && crc(body).Some?
    ensures Acceptable(Config(layout, UnsignedLE, crc), Sealed(body, crc(body).value))
    ensures Acceptable(Config(layout, SignedLE, crc), Sealed(body, crc(body).value))
            <==> crc(body).value < 0x8000
  {
    var c := crc(body).value;
    var f := Sealed(body, c);
    assert f[..|f| - 2] == body;
    assert f[..|body|] == body;
    U16RoundTrip(c, 0, 0);
  }

  /** Read signed, no trailer equals a CRC of 0x8000 or more: such frames are never passed on. */
  lemma SignedTrailerRejectsHighCrc(cfg: Config, packet: seq<byte>)
    requires cfg.fmt == SignedLE && |packet| >= 2
    requires cfg.crc(packet[..|packet| - 2]).Some? && cfg.crc(packet[..|packet| - 2]).value >= 0x8000
    ensures !Acceptable(cfg, packet)
  {
  }

  /**
   * Streams of sealed frames: with the unsigned trailer every frame is passed
   * on; with the signed trailer the first frame whose CRC is 0x8000 or more is
   * rejected and the thread falls into a resync.
   */
  lemma HighCrcStream(layout: Layout, crc: seq<byte> -> Option<u16>, body: seq<byte>)
    requires WellFormed(layout) && |body| + 2 == layout.ps
    requires StartsWithMep(body) && crc(body).Some? && crc(body).value >= 0x8000
    ensures var f := Sealed(body, crc(body).value);
            Feed(Config(layout, UnsignedLE, crc), Sync([], false), [f]) == Trace(Sync([], false), [f], 0)
            && Feed(Config(layout, SignedLE, crc), Sync([], false), [f]) == Trace(Sync([], true), [], 1)
  {
    var f := Sealed(body, crc(body).value);
    SealedAcceptance(layout, crc, body);
    AlignedDelivery(Config(layout, UnsignedLE, crc), [f]);
    assert ([] + f)[..layout.ps] == f && ([] + f)[layout.ps..] == [];
    RejectionResyncs(Config(layout, SignedLE, crc), Sync([], false), f);
  }

  // ----- The outlets -----

  /** The pushes of unpack_data for each frame passed on, in order. */
  function EmitAll(l: Layout, p: Parsers, frames: seq<seq<byte>>): (events: seq<Event>)
    requires WellFormed(l) && ParsersFit(l, p)
    requires FramesSized(frames, l.ps)
    ensures |events| <= 5 * |frames|
  {
    if frames == [] then []
    else EmitAll(l, p, frames[..|frames| - 1]) + UnpackData(l, p, frames[|frames| - 1])
  }

  /** The pushes for the frames passed on from the chunks `received`, starting with an empty buffer. */
  function Pushes(cfg: Config, p: Parsers, received: seq<seq<byte>>): seq<Event>
    requires WellFormed(cfg.layout) && ParsersFit(cfg.layout, p)
  {
    EmitAll(cfg.layout, p, Feed(cfg, Sync([], false), received).frames)
  }

  /** One chunk outside a resync that leaves the buffer shorter than a frame: appended, nothing pushed. */
  lemma ShortStep(cfg: Config, p: Parsers, chunks: seq<seq<byte>>, k: nat, before: seq<byte>, data: seq<byte>)
    requires WellFormed(cfg.layout) && ParsersFit(cfg.layout, p)
    requires k < |chunks| && Feed(cfg, Sync([], false), chunks[..k]).state == Sync(before, false)
    requires data == before + chunks[k] && |data| < cfg.layout.ps
    ensures Feed(cfg, Sync([], false), chunks[..k + 1]).state == Sync(data, false)
    ensures Pushes(cfg, p, chunks[..k + 1]) == Pushes(cfg, p, chunks[..k])
  {
    FeedSnoc(cfg, Sync([], false), chunks, k);
  }

  /** An acceptable candidate is cut from the front of the buffer and its pushes follow the earlier ones. */
  lemma DeliverStep(cfg: Config, p: Parsers, chunks: seq<seq<byte>>, k: nat, before: seq<byte>, whole: seq<byte>, packet: seq<byte>)
    requires WellFormed(cfg.layout) && ParsersFit(cfg.layout, p)
    requires k < |chunks| && Feed(cfg, Sync([], false), chunks[..k]).state == Sync(before, false)
    requires whole == before + chunks[k] && |whole| >= cfg.layout.ps
    requires packet == whole[..cfg.layout.ps] && Acceptable(cfg, packet)
    ensures Feed(cfg, Sync([], false), chunks[..k + 1]).state == Sync(whole[cfg.layout.ps..], false)
    ensures Pushes(cfg, p, chunks[..k + 1]) == Pushes(cfg, p, chunks[..k]) + UnpackData(cfg.layout, p, packet)
  {
    FeedSnoc(cfg, Sync([], false), chunks, k);
    EmitSnoc(cfg.layout, p, Feed(cfg, Sync([], false), chunks[..k]).frames, packet);
  }

  /** Any other candidate starts a resync; nothing is pushed. */
  lemma RejectStep(cfg: Config, p: Parsers, chunks: seq<seq<byte>>, k: nat, before: seq<byte>, whole: seq<byte>)
    requires WellFormed(cfg.layout) && ParsersFit(cfg.layout, p)
    requires k < |chunks| && Feed(cfg, Sync([], false), chunks[..k]).state == Sync(before, false)
    requires whole == before + chunks[k] && |whole| >= cfg.layout.ps && !Acceptable(cfg, whole[..cfg.layout.ps])
    ensures Feed(cfg, Sync([], false), chunks[..k + 1]).state == Sync(whole[cfg.layout.ps..], true)
    ensures Pushes(cfg, p, chunks[..k + 1]) == Pushes(cfg, p, chunks[..k])
  {
    FeedSnoc(cfg, Sync([], false), chunks, k);
  }

  /** One chunk during a resync: one starting with "MEP" replaces the buffer, any other is dropped. */
  lemma ResyncStep(cfg: Config, p: Parsers, chunks: seq<seq<byte>>, k: nat, before: seq<byte>)
    requires WellFormed(cfg.layout) && ParsersFit(cfg.layout, p)
    requires k < |chunks| && Feed(cfg, Sync([], false), chunks[..k]).state == Sync(before, true)
    ensures Feed(cfg, Sync([], false), chunks[..k + 1]).state
            == if StartsWithMep(chunks[k]) then Sync(chunks[k], false) else Sync(before, true)
    ensures Pushes(cfg, p, chunks[..k + 1]) == Pushes(cfg, p, chunks[..k])
  {
    FeedSnoc(cfg, Sync([], false), chunks, k);
  }

  lemma EmitSnoc(l: Layout, p: Parsers, frames: seq<seq<byte>>, f: seq<byte>)
    requires WellFormed(l) && ParsersFit(l, p)
    requires FramesSized(frames, l.ps)
    requires |f| == l.ps
    ensures EmitAll(l, p, frames + [f]) == EmitAll(l, p, frames) + UnpackData(l, p, f)
  {
    assert (frames + [f])[..|frames|] == frames;
  }

  /**
   * The receiving thread. The buffer is local to run(); the outlets are
   * modelled by the log of their pushes.
   */
  class StreamerThread {
    const layout: Layout
    const parsers: Parsers
    const fmt: TrailerFormat
    const crc: seq<byte> -> Option<u16>
    var streamData: bool
    var events: seq<Event>

    ghost predicate Valid()
      reads this
    {
      WellFormed(layout) && parsers == ParsersFor(layout)
    }

    /** The thread as streamer.py builds it: the parsers follow the layout, nothing pushed yet. */
    constructor (layout: Layout, fmt: TrailerFormat, crc: seq<byte> -> Option<u16>)
      requires WellFormed(layout)
      ensures Valid()
      ensures this.layout == layout && this.fmt == fmt && this.crc == crc
      ensures !streamData && events == []
    {
      this.layout := layout;
      this.parsers := ParsersFor(layout);
      this.fmt := fmt;
      this.crc := crc;
      streamData := false;
      events := [];
    }

    /** stop(): clear the flag that keeps the receive loop going. */
    method Stop()
      requires Valid()
      modifies this
      ensures Valid()
      ensures !streamData && events == old(events)
    {
      streamData := false;
    }

    /**
     * run(), with the socket delivering `chunks`: append each chunk, cut at
     * most one candidate, unpack it when it is acceptable, otherwise receive
     * until a chunk starts with "MEP". Returns the buffer and whether the
     * thread is still in the resync loop when the chunks run out. The pushes
     * of the frames are collected in `pushed` and reach the outlets' log when
     * the chunks run out.
     */
    method Run(chunks: seq<seq<byte>>) returns (data: seq<byte>, resyncing: bool)
      requires Valid()
      modifies this
      ensures Valid()
      ensures streamData
      ensures Sync(data, resyncing) == Feed(Config(layout, fmt, crc), Sync([], false), chunks).state
      ensures events == old(events) + EmitAll(layout, parsers, Feed(Config(layout, fmt, crc), Sync([], false), chunks).frames)
    {
      streamData := true;
      var cfg, p := Config(layout, fmt, crc), parsers;
      var ps := cfg.layout.ps;
      assert WellFormed(cfg.layout) && ParsersFit(cfg.layout, p);
      var pushed: seq<Event> := [];
      data := [];
      resyncing := false;
      var k := 0;
      while streamData && k < |chunks|
        invariant streamData && k <= |chunks|
        invariant resyncing ==> k == |chunks|
        invariant Sync(data, resyncing) == Feed(cfg, Sync([], false), chunks[..k]).state
        invariant pushed == Pushes(cfg, p, chunks[..k])
        invariant events == old(events)
        decreases |chunks| - k
      {
        ghost var k0, before := k, data;
        data := data + chunks[k];
        k := k + 1;
        if |data| >= ps {
          var packet := data[..ps];
          ghost var whole := data;
          data := data[ps..];
          if Acceptable(cfg, packet) {
            DeliverStep(cfg, p, chunks, k0, before, whole, packet);
            var out := UnpackData(cfg.layout, p, packet);
            pushed := pushed + out;
          } else {
            RejectStep(cfg, p, chunks, k0, before, whole);
            resyncing := true;
            while k < |chunks| && resyncing
              invariant streamData && k <= |chunks|
              invariant Sync(data, resyncing) == Feed(cfg, Sync([], false), chunks[..k]).state
              invariant pushed == Pushes(cfg, p, chunks[..k])
              invariant events == old(events)
              decreases |chunks| - k
            {
              ResyncStep(cfg, p, chunks, k, data);
              var tmp := chunks[k];
              k := k + 1;
              if StartsWithMep(tmp) {
                data := tmp;
                resyncing := false;
              }
            }
          }
        } else {
          ShortStep(cfg, p, chunks, k0, before, data);
        }
      }
      assert chunks[..k] == chunks;
      events := events + pushed;
    }
  }
}
