/**
 * The endpoint's private state as values: the GObject properties with the
 * bandwidth clamp, the active SSRCs learned from rtpbin and the media-start
 * / media-stop signals they give rise to, and the steps start_transport_send
 * takes per media section. The class in module Endpoint is specified by
 * these functions.
 */
module EndpointState {
  import opened Text
  import opened Sdp
  import opened Negotiation

  // ---------------------------------------------------------------------------
  // Properties (set_property / get_property)

  const GMaxInt := 0x7fff_ffff

  /** "target-bitrate" is a gint property restricted to 0 .. G_MAXINT. */
  type Bitrate = x: int | 0 <= x <= GMaxInt

  const MinVideoSendBwDefault: uint32 := 100
  const MaxVideoSendBwDefault: uint32 := 500

  datatype PropertyId =
    | ProtoId | BundleId | RtcpMuxId | RtcpFirId | RtcpNackId | RtcpPliId | RtcpRembId
    | TargetBitrateId | MinVideoSendBwId | MaxVideoSendBwId

  /** A property together with its value, as a GValue carries it. */
  datatype Property =
    | Proto(proto: Option<string>)
    | Bundle(bundle: bool)
    | RtcpMux(rtcpMux: bool)
    | RtcpFir(rtcpFir: bool)
    | RtcpNack(rtcpNack: bool)
    | RtcpPli(rtcpPli: bool)
    | RtcpRemb(rtcpRemb: bool)
    | TargetBitrate(bitrate: Bitrate)
    | MinVideoSendBw(minBw: uint32)
    | MaxVideoSendBw(maxBw: uint32)
  {
    function Id(): PropertyId
    {
      match this
      case Proto(_) => ProtoId
      case Bundle(_) => BundleId
      case RtcpMux(_) => RtcpMuxId
      case RtcpFir(_) => RtcpFirId
      case RtcpNack(_) => RtcpNackId
      case RtcpPli(_) => RtcpPliId
      case RtcpRemb(_) => RtcpRembId
      case TargetBitrate(_) => TargetBitrateId
      case MinVideoSendBw(_) => MinVideoSendBwId
      case MaxVideoSendBw(_) => MaxVideoSendBwId
    }
  }

  /** The property-backed fields of the private structure. */
  datatype Settings = Settings(
    proto: Option<string>,
    bundle: bool,
    rtcpMux: bool,
    rtcpFir: bool,
    rtcpNack: bool,
    rtcpPli: bool,
    rtcpRemb: bool,
    targetBitrate: Bitrate,
    minVideoSendBw: uint32,
    maxVideoSendBw: uint32)
  {
    /** The bandwidth pair is ordered. */
    predicate Valid()
    {
      minVideoSendBw <= maxVideoSendBw
    }

    function Feedback(): FeedbackFlags
    {
      FeedbackFlags(rtcpFir, rtcpNack, rtcpPli, rtcpRemb)
    }
  }

  /** The state kms_base_rtp_endpoint_init leaves (the rest of the structure is zero-filled). */
  const DefaultSettings := Settings(None, false, false, false, false, false, false, 0,
                                    MinVideoSendBwDefault, MaxVideoSendBwDefault)

  /** get_property: the value stored for property `id`. */
  function GetSetting(s: Settings, id: PropertyId): (p: Property)
    ensures p.Id() == id
  {
    match id
    case ProtoId => Proto(s.proto)
    case BundleId => Bundle(s.bundle)
    case RtcpMuxId => RtcpMux(s.rtcpMux)
    case RtcpFirId => RtcpFir(s.rtcpFir)
    case RtcpNackId => RtcpNack(s.rtcpNack)
    case RtcpPliId => RtcpPli(s.rtcpPli)
    case RtcpRembId => RtcpRemb(s.rtcpRemb)
    case TargetBitrateId => TargetBitrate(s.targetBitrate)
    case MinVideoSendBwId => MinVideoSendBw(s.minVideoSendBw)
    case MaxVideoSendBwId => MaxVideoSendBw(s.maxVideoSendBw)
  }

  /**
   * set_property: a plain store, except that a minimum above the current
   * maximum stores the maximum and a maximum below the current minimum
   * stores the minimum.
   */
  function SetSetting(s: Settings, p: Property): (r: Settings)
    ensures s.Valid() ==> r.Valid()
    ensures forall id :: id != p.Id() ==> GetSetting(r, id) == GetSetting(s, id)
  {
    var r := Store(s, p);
    StoreFrame(s, p);
    r
  }

  /** The field update of set_property's switch. */
  function Store(s: Settings, p: Property): Settings
  {
    match p
    case Proto(v) => s.(proto := v)
    case Bundle(v) => s.(bundle := v)
    case RtcpMux(v) => s.(rtcpMux := v)
    case RtcpFir(v) => s.(rtcpFir := v)
    case RtcpNack(v) => s.(rtcpNack := v)
    case RtcpPli(v) => s.(rtcpPli := v)
    case RtcpRemb(v) => s.(rtcpRemb := v)
    case TargetBitrate(v) => s.(targetBitrate := v)
    case MinVideoSendBw(v) => s.(minVideoSendBw := if v > s.maxVideoSendBw then s.maxVideoSendBw else v)
    case MaxVideoSendBw(v) => s.(maxVideoSendBw := if v < s.minVideoSendBw then s.minVideoSendBw else v)
  }

  /** `r` agrees with `s` on every property-backed field except that of `written`. */
  predicate SameExcept(s: Settings, r: Settings, written: PropertyId)
  {
    && (written != ProtoId ==> r.proto == s.proto)
    && (written != BundleId ==> r.bundle == s.bundle)
    && (written != RtcpMuxId ==> r.rtcpMux == s.rtcpMux)
    && (written != RtcpFirId ==> r.rtcpFir == s.rtcpFir)
    && (written != RtcpNackId ==> r.rtcpNack == s.rtcpNack)
    && (written != RtcpPliId ==> r.rtcpPli == s.rtcpPli)
    && (written != RtcpRembId ==> r.rtcpRemb == s.rtcpRemb)
    && (written != TargetBitrateId ==> r.targetBitrate == s.targetBitrate)
    && (written != MinVideoSendBwId ==> r.minVideoSendBw == s.minVideoSendBw)
    && (written != MaxVideoSendBwId ==> r.maxVideoSendBw == s.maxVideoSendBw)
  }

  /** Field-wise agreement is agreement of every other property read. */
  lemma SameExceptReads(s: Settings, r: Settings, written: PropertyId)
    requires SameExcept(s, r, written)
    ensures forall id :: id != written ==> GetSetting(r, id) == GetSetting(s, id)
  {
  }

  /** A store changes only the field of the property written, and keeps the bandwidth pair ordered. */
  lemma StoreFrame(s: Settings, p: Property)
    ensures s.Valid() ==> Store(s, p).Valid()
    ensures forall id :: id != p.Id() ==> GetSetting(Store(s, p), id) == GetSetting(s, id)
  {
    assert SameExcept(s, Store(s, p), p.Id());
    SameExceptReads(s, Store(s, p), p.Id());
  }

  /** A write that the clamp leaves alone. */
  predicate Unclamped(s: Settings, p: Property)
  {
    match p
    case MinVideoSendBw(v) => v <= s.maxVideoSendBw
    case MaxVideoSendBw(v) => v >= s.minVideoSendBw
    case _ => true
  }

  /** Reading back a property after writing it gives the value written, unless the clamp applied. */
  lemma SetThenGet(s: Settings, p: Property)
    ensures Unclamped(s, p) ==> GetSetting(SetSetting(s, p), p.Id()) == p
    ensures !Unclamped(s, p) && p.MinVideoSendBw? ==>
      GetSetting(SetSetting(s, p), p.Id()) == MinVideoSendBw(s.maxVideoSendBw)
    ensures !Unclamped(s, p) && p.MaxVideoSendBw? ==>
      GetSetting(SetSetting(s, p), p.Id()) == MaxVideoSendBw(s.minVideoSendBw)
  {
  }

  /** Several set_property calls, in order. */
  function SetAll(s: Settings, ps: seq<Property>): Settings
    decreases |ps|
  {
    if ps == [] then s else SetAll(SetSetting(s, ps[0]), ps[1..])
  }

  lemma {:induction false} SetAllKeepsBandwidthOrder(s: Settings, ps: seq<Property>)
    requires s.Valid()
    ensures SetAll(s, ps).Valid()
    decreases |ps|
  {
    if ps != [] {
      SetAllKeepsBandwidthOrder(SetSetting(s, ps[0]), ps[1..]);
    }
  }

  /**
   * Whatever sequence of writes is applied to the defaults, the bandwidth
   * pair stays ordered.
   */
  lemma DefaultsKeepBandwidthOrder(ps: seq<Property>)
    ensures SetAll(DefaultSettings, ps).Valid()
  {
    SetAllKeepsBandwidthOrder(DefaultSettings, ps);
  }

  // ---------------------------------------------------------------------------
  // Active SSRCs and the media-start / media-stop signals

  datatype MediaType = AudioMedia | VideoMedia

  /** The arguments of the "media-start" and "media-stop" signals. */
  datatype Signal = MediaStart(media: MediaType, local: bool) | MediaStop(media: MediaType, local: bool)

  /** The media type of an RTP session; other sessions have none. */
  function SessionMedia(session: nat): (r: Option<MediaType>)
    ensures r == Some(AudioMedia) <==> session == AudioSession
    ensures r == Some(VideoMedia) <==> session == VideoSession
  {
    if session == AudioSession then Some(AudioMedia)
    else if session == VideoSession then Some(VideoMedia)
    else None
  }

  /** audio_ssrc and video_ssrc: the remote SSRCs rtpbin has reported as active, 0 when none. */
  datatype ActiveSsrcs = ActiveSsrcs(audio: uint32, video: uint32)

  /** on_new_ssrc: a session's active SSRC is set only while it is 0. */
  function NewSsrc(a: ActiveSsrcs, session: nat, ssrc: uint32): (r: ActiveSsrcs)
    ensures r.audio == if session == AudioSession && a.audio == 0 then ssrc else a.audio
    ensures r.video == if session == VideoSession && a.video == 0 then ssrc else a.video
  {
    if session == AudioSession then (if a.audio != 0 then a else a.(audio := ssrc))
    else if session == VideoSession then (if a.video != 0 then a else a.(video := ssrc))
    else a
  }

  /** Several on_new_ssrc callbacks for the same session, in order. */
  function NewSsrcs(a: ActiveSsrcs, session: nat, ssrcs: seq<uint32>): ActiveSsrcs
    decreases |ssrcs|
  {
    if ssrcs == [] then a else NewSsrcs(NewSsrc(a, session, ssrcs[0]), session, ssrcs[1..])
  }

  /** The first non-zero SSRC of `ssrcs`, 0 when there is none. */
  function FirstNonZero(ssrcs: seq<uint32>): (r: uint32)
    ensures r != 0 ==> r in ssrcs
    ensures r == 0 <==> forall i :: 0 <= i < |ssrcs| ==> ssrcs[i] == 0
  {
    if ssrcs == [] then 0 else if ssrcs[0] != 0 then ssrcs[0] else FirstNonZero(ssrcs[1..])
  }

  /**
   * First-seen wins: the audio or video session ends up with the first
   * non-zero SSRC it reported unless one was already active; once set,
   * later ones are ignored; the other media's SSRC is untouched.
   */
  lemma {:induction false} FirstSeenWins(a: ActiveSsrcs, session: nat, ssrcs: seq<uint32>)
    requires session == AudioSession || session == VideoSession
    ensures session == AudioSession ==>
      NewSsrcs(a, session, ssrcs).audio == (if a.audio != 0 then a.audio else FirstNonZero(ssrcs)) &&
      NewSsrcs(a, session, ssrcs).video == a.video
    ensures session == VideoSession ==>
      NewSsrcs(a, session, ssrcs).video == (if a.video != 0 then a.video else FirstNonZero(ssrcs)) &&
      NewSsrcs(a, session, ssrcs).audio == a.audio
    decreases |ssrcs|
  {
    if ssrcs != [] {
      FirstSeenWins(NewSsrc(a, session, ssrcs[0]), session, ssrcs[1..]);
    }
  }

  /** What stop_signal leaves: the new active SSRCs and the signals emitted. */
  datatype Outcome = Outcome(active: ActiveSsrcs, emitted: seq<Signal>)

  /**
   * stop_signal: an SSRC equal to the current audio or video SSRC (audio
   * checked first) clears that field and the stop is remote (local = FALSE);
   * otherwise the stop is local. The fields are compared as they are, so an
   * SSRC of 0 matches an unset slot. The clearing happens whatever the
   * session; the signal only for the audio and video sessions.
   */
  function StopSignal(a: ActiveSsrcs, session: nat, ssrc: uint32): (r: Outcome)
    ensures |r.emitted| <= 1
    ensures r.emitted == [] <==> SessionMedia(session).None?
    ensures r.emitted != [] ==>
      r.emitted[0] == MediaStop(SessionMedia(session).value, !(ssrc == a.audio || ssrc == a.video))
    ensures r.active.audio == if ssrc == a.audio then 0 else a.audio
    ensures r.active.video == if ssrc != a.audio && ssrc == a.video then 0 else a.video
  {
    var matched := ssrc == a.audio || ssrc == a.video;
    var active :=
      if !matched then a
      else if a.audio == ssrc then a.(audio := 0)
      else a.(video := 0);
    match SessionMedia(session)
    case None => Outcome(active, [])
    case Some(media) => Outcome(active, [MediaStop(media, !matched)])
  }

  /** A stop for an SSRC equal to neither field changes nothing; otherwise it clears exactly one field. */
  lemma StopSignalClearsAtMostOne(a: ActiveSsrcs, session: nat, ssrc: uint32)
    ensures var r := StopSignal(a, session, ssrc);
      && (ssrc != a.audio && ssrc != a.video ==> r.active == a)
      && (r.active.audio == a.audio || r.active.video == a.video)
  {
  }

  /**
   * on_ssrc_sdes: a remote media-start for an SSRC equal to the current audio
   * or video SSRC (an SSRC of 0 matches an unset slot), on the audio or
   * video session.
   */
  function SdesSignals(a: ActiveSsrcs, session: nat, ssrc: uint32): (s: seq<Signal>)
    ensures s != [] <==> (ssrc == a.audio || ssrc == a.video) && SessionMedia(session).Some?
    ensures s != [] ==> s == [MediaStart(SessionMedia(session).value, false)]
  {
    if ssrc != a.audio && ssrc != a.video then []
    else match SessionMedia(session)
      case None => []
      case Some(media) => [MediaStart(media, false)]
  }

  /**
   * The fields are compared without checking that they are set: while a slot
   * is unset, a bye for SSRC 0 is a remote stop and an SDES for SSRC 0 a
   * remote media-start.
   */
  lemma ZeroSsrcMatchesUnsetSlot(a: ActiveSsrcs, session: nat)
    requires a.audio == 0 || a.video == 0
    requires SessionMedia(session).Some?
    ensures StopSignal(a, session, 0).emitted == [MediaStop(SessionMedia(session).value, false)]
    ensures SdesSignals(a, session, 0) == [MediaStart(SessionMedia(session).value, false)]
  {
  }

  /**
   * dispose: for audio, then video, an active SSRC goes through stop_signal
   * on its own session and a further local stop follows.
   */
  function Dispose(a: ActiveSsrcs): Outcome
  {
    var afterAudio :=
      if a.audio == 0 then Outcome(a, [])
      else
        var r := StopSignal(a, AudioSession, a.audio);
        Outcome(r.active, r.emitted + [MediaStop(AudioMedia, true)]);
    if afterAudio.active.video == 0 then afterAudio
    else
      var r := StopSignal(afterAudio.active, VideoSession, afterAudio.active.video);
      Outcome(r.active, afterAudio.emitted + r.emitted + [MediaStop(VideoMedia, true)])
  }

  /** The stops dispose emits for one media: a remote stop, then a local one, when it was active. */
  function StopPair(media: MediaType, ssrc: uint32): seq<Signal>
  {
    if ssrc == 0 then [] else [MediaStop(media, false), MediaStop(media, true)]
  }

  /**
   * dispose emits exactly two stops per active media, audio before video,
   * none for an inactive one, and leaves no SSRC active.
   */
  lemma DisposeSignals(a: ActiveSsrcs)
    ensures Dispose(a).emitted == StopPair(AudioMedia, a.audio) + StopPair(VideoMedia, a.video)
    ensures Dispose(a).active == ActiveSsrcs(0, 0)
  {
    if a.audio != 0 {
      var r := StopSignal(a, AudioSession, a.audio);
      assert r.emitted == [MediaStop(AudioMedia, false)];
      assert r.active.video == a.video;
    }
  }

  /**
   * dispose does not stop later callbacks: a bye that arrives afterwards for a
   * non-zero SSRC, even the one that was active, is reported as a local stop.
   */
  lemma LateByeAfterDispose(a: ActiveSsrcs, session: nat, ssrc: uint32)
    requires ssrc != 0 && SessionMedia(session).Some?
    ensures StopSignal(Dispose(a).active, session, ssrc).emitted == [MediaStop(SessionMedia(session).value, true)]
    ensures StopSignal(Dispose(a).active, session, ssrc).active == ActiveSsrcs(0, 0)
  {
    DisposeSignals(a);
  }

  // ---------------------------------------------------------------------------
  // start_transport_send

  /** The pipeline steps start_transport_send takes; the pad linking inside them is not modelled. */
  datatype TransportStep =
    | AddBundleConnection
    | AddBundleSink(session: nat)
    | AddConnection(name: string, session: nat)
    | CreateRembManagers

  /** The steps for one media section of the negotiated description. */
  function MediaSendSteps(m: Media, bundle: bool, remb: bool): seq<TransportStep>
  {
    if m.media == AudioKind then
      (if bundle then [AddBundleSink(AudioSession)] else [AddConnection(AudioKind, AudioSession)])
    else if m.media == VideoKind then
      (if remb then [CreateRembManagers] else [])
      + (if bundle then [AddBundleSink(VideoSession)] else [AddConnection(VideoKind, VideoSession)])
    else []
  }

  function SendSteps(medias: seq<Media>, bundle: bool, remb: bool): seq<TransportStep>
  {
    if medias == [] then []
    else SendSteps(medias[..|medias| - 1], bundle, remb) + MediaSendSteps(medias[|medias| - 1], bundle, remb)
  }

  /**
   * The remote SSRC of `kind` after the loop: the SSRC of the last media of
   * that kind (each one overwrites the previous), or `current` when there is none.
   */
  function LastSsrc(medias: seq<Media>, kind: string, mediaSsrc: Media -> uint32, current: uint32): uint32
  {
    if medias == [] then current
    else if medias[|medias| - 1].media == kind then mediaSsrc(medias[|medias| - 1])
    else LastSsrc(medias[..|medias| - 1], kind, mediaSsrc, current)
  }

  lemma SendStepsSnoc(medias: seq<Media>, i: nat, bundle: bool, remb: bool)
    requires i < |medias|
    ensures SendSteps(medias[..i + 1], bundle, remb) == SendSteps(medias[..i], bundle, remb) + MediaSendSteps(medias[i], bundle, remb)
  {
    assert medias[..i + 1][..i] == medias[..i];
  }

  lemma LastSsrcSnoc(medias: seq<Media>, i: nat, kind: string, mediaSsrc: Media -> uint32, current: uint32)
    requires i < |medias|
    ensures LastSsrc(medias[..i + 1], kind, mediaSsrc, current) ==
      if medias[i].media == kind then mediaSsrc(medias[i]) else LastSsrc(medias[..i], kind, mediaSsrc, current)
  {
    assert medias[..i + 1][..i] == medias[..i];
  }

  /** The remote SSRC of a kind is the SSRC of the last media of that kind. */
  lemma {:induction false} LastSsrcOfLast(medias: seq<Media>, kind: string, mediaSsrc: Media -> uint32, current: uint32, i: nat)
    requires i < |medias| && medias[i].media == kind
    requires forall j :: i < j < |medias| ==> medias[j].media != kind
    ensures LastSsrc(medias, kind, mediaSsrc, current) == mediaSsrc(medias[i])
    decreases |medias|
  {
    if i < |medias| - 1 {
      var init := medias[..|medias| - 1];
      assert init[i] == medias[i];
      forall j | i < j < |init|
        ensures init[j].media != kind
      {
        assert init[j] == medias[j];
      }
      LastSsrcOfLast(init, kind, mediaSsrc, current, i);
    }
  }

  /**
   * A remote SSRC already set does not survive a description with a media of
   * that kind: it is overwritten, not rejected; without such a media it stays.
   */
  lemma {:induction false} LastSsrcOverwrites(medias: seq<Media>, kind: string, mediaSsrc: Media -> uint32, c1: uint32, c2: uint32)
    ensures HasKind(medias, kind) ==> LastSsrc(medias, kind, mediaSsrc, c1) == LastSsrc(medias, kind, mediaSsrc, c2)
    ensures !HasKind(medias, kind) ==> LastSsrc(medias, kind, mediaSsrc, c1) == c1
  {
    if medias != [] {
      var init := medias[..|medias| - 1];
      LastSsrcOverwrites(init, kind, mediaSsrc, c1, c2);
      if medias[|medias| - 1].media != kind {
        HasKindOfInit(medias, kind);
      }
    }
  }

  lemma HasKindOfInit(medias: seq<Media>, kind: string)
    requires medias != [] && medias[|medias| - 1].media != kind
    ensures HasKind(medias, kind) == HasKind(medias[..|medias| - 1], kind)
  {
    if HasKind(medias, kind) {
      var i :| 0 <= i < |medias| && medias[i].media == kind;
      assert medias[..|medias| - 1][i] == medias[i];
    }
    if HasKind(medias[..|medias| - 1], kind) {
      var i :| 0 <= i < |medias| - 1 && medias[..|medias| - 1][i].media == kind;
      assert medias[i] == medias[..|medias| - 1][i];
    }
  }

  function CountSteps(steps: seq<TransportStep>, step: TransportStep): nat
  {
    if steps == [] then 0
    else (if steps[0] == step then 1 else 0) + CountSteps(steps[1..], step)
  }

  lemma {:induction false} CountStepsAppend(a: seq<TransportStep>, b: seq<TransportStep>, step: TransportStep)
    ensures CountSteps(a + b, step) == CountSteps(a, step) + CountSteps(b, step)
  {
    if a == [] {
      assert a + b == b;
    } else {
      assert (a + b)[0] == a[0];
      assert (a + b)[1..] == a[1..] + b;
      CountStepsAppend(a[1..], b, step);
    }
  }

  /**
   * The REMB managers are created once per video media when rtcp-remb is on,
   * whether or not that media announced an SSRC, and never otherwise.
   */
  lemma {:induction false} RembManagersPerVideoMedia(medias: seq<Media>, bundle: bool, remb: bool)
    ensures CountSteps(SendSteps(medias, bundle, remb), CreateRembManagers) ==
      if remb then CountKind(medias, VideoKind) else 0
  {
    if medias != [] {
      var init, last := medias[..|medias| - 1], medias[|medias| - 1];
      RembManagersPerVideoMedia(init, bundle, remb);
      CountStepsAppend(SendSteps(init, bundle, remb), MediaSendSteps(last, bundle, remb), CreateRembManagers);
      CountKindSnoc(init, last, VideoKind);
      assert medias == init + [last];
      var steps := MediaSendSteps(last, bundle, remb);
      if last.media == VideoKind && remb {
        var a := [CreateRembManagers];
        var b := if bundle then [AddBundleSink(VideoSession)] else [AddConnection(VideoKind, VideoSession)];
        CountStepsAppend(a, b, CreateRembManagers);
      } else if last.media == VideoKind {
        assert CountSteps(steps, CreateRembManagers) == 0;
      }
    }
  }

  /** With BUNDLE, every media goes through the one bundle connection: no per-media connection is added. */
  lemma {:induction false} BundleAddsNoConnections(medias: seq<Media>, remb: bool, name: string, session: nat)
    ensures AddConnection(name, session) !in SendSteps(medias, true, remb)
  {
    if medias != [] {
      BundleAddsNoConnections(medias[..|medias| - 1], remb, name, session);
    }
  }
}
