/**
 * KmsBaseRtpEndpoint: the private state of the endpoint and the operations
 * that change it step by step. rtpbin, the connection factories a subclass
 * provides and the SDP utilities are passed in as values:
 *   - `sessions` maps each RTP session rtpbin yields to its internal SSRC;
 *   - `registry` names the connections create_connection and
 *     create_bundle_connection can build (they return NULL for any other);
 *   - `mediaSsrc` is sdp_utils_media_get_ssrc;
 *   - `rrPair` is the RTCP demuxer's receiver-report SSRC pairing.
 */
module Endpoint {
  import opened Text
  import opened Sdp
  import opened Negotiation
  import opened Formats
  import opened Routing
  import opened EndpointState

  const BundleStreamName := "bundle"

  /** A call to one of the connection factories, with the name it was asked for. */
  datatype ConnectionRequest = BundleConnectionRequest(name: string) | RtpConnectionRequest(name: string)

  /** The names for which create_connection and create_bundle_connection return a connection. */
  datatype Registry = Registry(rtpNames: set<string>, bundleNames: set<string>)

  /** One create_connection call per media section, named after its kind. */
  function RtpRequests(medias: seq<Media>): (r: seq<ConnectionRequest>)
    ensures |r| == |medias|
    ensures forall i :: 0 <= i < |r| ==> r[i] == RtpConnectionRequest(medias[i].media)
  {
    seq(|medias|, i requires 0 <= i < |medias| => RtpConnectionRequest(medias[i].media))
  }

  lemma RtpRequestsSnoc(medias: seq<Media>, i: nat)
    requires i < |medias|
    ensures RtpRequests(medias[..i + 1]) == RtpRequests(medias[..i]) + [RtpConnectionRequest(medias[i].media)]
  {
  }

  lemma MidListSnoc(medias: seq<Media>, i: nat)
    requires i < |medias|
    ensures MidList(medias[..i + 1]) == MidList(medias[..i]) + " " + medias[i].media
  {
    assert medias[..i + 1][..i] == medias[..i];
  }

  lemma AnnouncedSsrcSnoc(medias: seq<Media>, i: nat, kind: string, sessions: map<nat, uint32>, current: uint32)
    requires i < |medias| && AllRewritable(medias[..i + 1], sessions)
    ensures AllRewritable(medias[..i], sessions) && Rewritable(medias[i], sessions)
    ensures AnnouncedSsrc(medias[..i + 1], kind, sessions, current) ==
      if medias[i].media == kind then SessionSsrc(medias[i], sessions) else AnnouncedSsrc(medias[..i], kind, sessions, current)
  {
    assert medias[..i + 1][..i] == medias[..i];
    assert medias[..i + 1][i] == medias[i];
    assert forall j :: 0 <= j < i ==> medias[..i + 1][j] == medias[..i][j];
  }

  /** None of the first `n` media sections makes set_transport_to_sdp fail. */
  predicate NoneFails(medias: seq<Media>, bundle: bool, sessions: map<nat, uint32>, rtpNames: set<string>, n: nat)
    requires n <= |medias|
  {
    forall j :: 0 <= j < n ==> !MediaFails(medias[j], bundle, sessions, rtpNames)
  }

  lemma NoneFailsStep(medias: seq<Media>, bundle: bool, sessions: map<nat, uint32>, rtpNames: set<string>, n: nat)
    requires n < |medias| && NoneFails(medias, bundle, sessions, rtpNames, n)
    requires !MediaFails(medias[n], bundle, sessions, rtpNames)
    ensures NoneFails(medias, bundle, sessions, rtpNames, n + 1)
  {
  }

  /** The first `i` media sections went through and media `i` does not: `i` is the first failure. */
  lemma FirstFailureAt(medias: seq<Media>, bundle: bool, sessions: map<nat, uint32>, rtpNames: set<string>, i: nat)
    requires i <= |medias|
    requires NoneFails(medias, bundle, sessions, rtpNames, i)
    requires i < |medias| ==> MediaFails(medias[i], bundle, sessions, rtpNames)
    ensures FirstFailure(medias, bundle, sessions, rtpNames, 0) == i
  {
  }

  /**
   * The first `i` media sections went through and media `i`, if any, does not:
   * the call fails at `i`, having rewritten media `i` too when only its
   * connection was missing.
   */
  lemma ProgressAt(medias: seq<Media>, bundle: bool, sessions: map<nat, uint32>, rtpNames: set<string>, i: nat)
    requires i <= |medias|
    requires NoneFails(medias, bundle, sessions, rtpNames, i)
    requires i < |medias| ==> MediaFails(medias[i], bundle, sessions, rtpNames)
    ensures Succeeds(medias, bundle, sessions, rtpNames) <==> i == |medias|
    ensures Progress(medias, bundle, sessions, rtpNames) == if i < |medias| && Rewritable(medias[i], sessions) then i + 1 else i
  {
    FirstFailureAt(medias, bundle, sessions, rtpNames, i);
  }

  /**
   * The bookkeeping of the media loop of set_transport_to_sdp: the media list
   * of the group value, the connection requests and the local audio and
   * video SSRCs.
   */
  datatype LoopState = LoopState(mids: string, requests: seq<ConnectionRequest>, audio: uint32, video: uint32)

  /**
   * The bookkeeping once the first `n` media sections have gone through, from
   * the given starting requests and SSRCs, turn by turn: media `n - 1` adds
   * its kind to the group value (BUNDLE) or requests its connection, and
   * announces its session's SSRC as the local SSRC of its kind.
   */
  function AfterMedias(medias: seq<Media>, bundle: bool, sessions: map<nat, uint32>, n: nat,
                       requests: seq<ConnectionRequest>, audio: uint32, video: uint32): LoopState
    requires n <= |medias| && AllRewritable(medias[..n], sessions)
    decreases n
  {
    if n == 0 then LoopState("", requests, audio, video)
    else
      assert AllRewritable(medias[..n - 1], sessions) by {
        assert forall j :: 0 <= j < n - 1 ==> medias[..n - 1][j] == medias[..n][j];
      }
      assert medias[..n][n - 1] == medias[n - 1];
      var st := AfterMedias(medias, bundle, sessions, n - 1, requests, audio, video);
      var m := medias[n - 1];
      var ssrc := SessionSsrc(m, sessions);
      LoopState(
        if bundle then st.mids + " " + m.media else st.mids,
        if bundle then st.requests else st.requests + [RtpConnectionRequest(m.media)],
        if m.media == AudioKind then ssrc else st.audio,
        if m.media == VideoKind then ssrc else st.video)
  }

  lemma AllRewritableSnoc(medias: seq<Media>, i: nat, sessions: map<nat, uint32>)
    requires i < |medias| && AllRewritable(medias[..i], sessions) && Rewritable(medias[i], sessions)
    ensures AllRewritable(medias[..i + 1], sessions)
  {
    assert forall j :: 0 <= j < i ==> medias[..i + 1][j] == medias[..i][j];
  }

  /**
   * The same bookkeeping in closed form: the media list of the first `n`
   * kinds, one connection request per media when not bundling, and for each
   * kind the SSRC of the last media of that kind.
   */
  lemma {:induction false} AfterMediasClosedForm(medias: seq<Media>, bundle: bool, sessions: map<nat, uint32>, n: nat,
                                                 requests: seq<ConnectionRequest>, audio: uint32, video: uint32)
    requires n <= |medias| && AllRewritable(medias[..n], sessions)
    ensures AfterMedias(medias, bundle, sessions, n, requests, audio, video) == LoopState(
      if bundle then MidList(medias[..n]) else "",
      requests + (if bundle then [] else RtpRequests(medias[..n])),
      AnnouncedSsrc(medias[..n], AudioKind, sessions, audio),
      AnnouncedSsrc(medias[..n], VideoKind, sessions, video))
    decreases n
  {
    if n == 0 {
      assert medias[..0] == [];
    } else {
      var i := n - 1;
      assert AllRewritable(medias[..i], sessions) by {
        assert forall j :: 0 <= j < i ==> medias[..i][j] == medias[..n][j];
      }
      AfterMediasClosedForm(medias, bundle, sessions, i, requests, audio, video);
      AnnouncedSsrcSnoc(medias, i, AudioKind, sessions, audio);
      AnnouncedSsrcSnoc(medias, i, VideoKind, sessions, video);
      if bundle {
        MidListSnoc(medias, i);
      } else {
        RtpRequestsSnoc(medias, i);
        AppendThree(requests, RtpRequests(medias[..i]), [RtpConnectionRequest(medias[i].media)]);
      }
    }
  }

  /**
   * `medias` is `orig` with its first `n` media sections rewritten for
   * transport `tp`, each with its session's SSRC, and the others untouched.
   */
  predicate RewrittenUpTo(medias: seq<Media>, orig: seq<Media>, tp: Transport, sessions: map<nat, uint32>, n: nat)
    requires n <= |orig| && AllRewritable(orig[..n], sessions)
  {
    && |medias| == |orig|
    && (forall j {:trigger medias[j]} :: 0 <= j < n ==>
          orig[..n][j] == orig[j] && medias[j] == RewrittenMedia(orig[j], tp, SessionSsrc(orig[..n][j], sessions)))
    && (forall j {:trigger medias[j]} :: n <= j < |orig| ==> medias[j] == orig[j])
  }

  /** Rewriting media `n` in place extends the rewritten prefix by one. */
  lemma RewrittenOneMore(medias: seq<Media>, orig: seq<Media>, tp: Transport, sessions: map<nat, uint32>, n: nat)
    requires n < |orig| && AllRewritable(orig[..n], sessions) && Rewritable(orig[n], sessions)
    requires RewrittenUpTo(medias, orig, tp, sessions, n)
    ensures AllRewritable(orig[..n + 1], sessions)
    ensures RewrittenUpTo(medias[n := RewrittenMedia(orig[n], tp, SessionSsrc(orig[n], sessions))], orig, tp, sessions, n + 1)
  {
    AllRewritableSnoc(orig, n, sessions);
    var medias' := medias[n := RewrittenMedia(orig[n], tp, SessionSsrc(orig[n], sessions))];
    forall j | 0 <= j < n + 1
      ensures orig[..n + 1][j] == orig[j] && medias'[j] == RewrittenMedia(orig[j], tp, SessionSsrc(orig[..n + 1][j], sessions))
    {
      if j < n {
        assert medias[j] == RewrittenMedia(orig[j], tp, SessionSsrc(orig[..n][j], sessions));
      }
    }
    forall j | n + 1 <= j < |orig|
      ensures medias'[j] == orig[j]
    {
      assert medias[j] == orig[j];
    }
  }

  /** The rewritten prefix in closed form: RewriteAll of the first `n` media sections, then the rest. */
  lemma RewrittenUpToClosedForm(medias: seq<Media>, orig: seq<Media>, tp: Transport, sessions: map<nat, uint32>, n: nat)
    requires n <= |orig| && AllRewritable(orig[..n], sessions)
    requires RewrittenUpTo(medias, orig, tp, sessions, n)
    ensures medias == RewriteAll(orig[..n], tp, sessions) + orig[n..]
  {
    var r := RewriteAll(orig[..n], tp, sessions) + orig[n..];
    forall j | 0 <= j < |orig|
      ensures medias[j] == r[j]
    {
      if j < n {
        assert medias[j] == RewrittenMedia(orig[j], tp, SessionSsrc(orig[..n][j], sessions));
      } else {
        assert medias[j] == orig[j];
        assert r[j] == orig[n..][j - n];
      }
    }
  }

  /**
   * The media loop has gone through the first `n` media sections: they are
   * rewritten for transport `tp`, the rest are untouched, and the bookkeeping
   * `st` is what those `n` turns produce.
   */
  predicate Rewrote(msg: Message, bundle: bool, tp: Transport, sessions: map<nat, uint32>, n: nat,
                    medias: seq<Media>, st: LoopState, requests: seq<ConnectionRequest>, audio: uint32, video: uint32)
  {
    && n <= |msg.medias| && AllRewritable(msg.medias[..n], sessions)
    && RewrittenUpTo(medias, msg.medias, tp, sessions, n)
    && st == AfterMedias(msg.medias, bundle, sessions, n, requests, audio, video)
  }

  /** What set_transport_to_sdp returns, the description it leaves behind and its bookkeeping. */
  datatype TransportOutcome = TransportOutcome(ok: bool, msg: Message, st: LoopState)

  /**
   * kms_base_rtp_endpoint_set_transport_to_sdp on `msg`, once the BUNDLE
   * choice `bundle` and the transport `tp` are settled: with BUNDLE the bundle
   * connection is asked for first and its absence fails the call before any
   * media is touched; then the media sections are rewritten in turn up to the
   * first failure, and a successful BUNDLE call appends the group attribute.
   */
  function TransportToSdp(msg: Message, bundle: bool, tp: Transport, sessions: map<nat, uint32>, registry: Registry,
                          requests: seq<ConnectionRequest>, audio: uint32, video: uint32): TransportOutcome
  {
    var requests' := if bundle then requests + [BundleConnectionRequest(BundleStreamName)] else requests;
    if bundle && BundleStreamName !in registry.bundleNames then
      TransportOutcome(false, msg, LoopState("", requests', audio, video))
    else
      var n := Progress(msg.medias, bundle, sessions, registry.rtpNames);
      var st := AfterMedias(msg.medias, bundle, sessions, n, requests', audio, video);
      var ok := Succeeds(msg.medias, bundle, sessions, registry.rtpNames);
      TransportOutcome(ok,
        Message(if ok && bundle then msg.attributes + [Attribute(GroupKey, BundleToken + st.mids)] else msg.attributes,
                RewriteAll(msg.medias[..n], tp, sessions) + msg.medias[n..]),
        st)
  }

  /**
   * A successful call leaves exactly the negotiated description: every media
   * rewritten, and with BUNDLE the group "BUNDLE <kind> <kind> ...". Its
   * bookkeeping is one connection request per media (or the one bundle
   * connection) and, per kind, the SSRC of the last media of that kind.
   * The call succeeds iff the bundle connection, when wanted, exists and no
   * media section fails.
   */
  lemma TransportToSdpSucceeds(msg: Message, bundle: bool, tp: Transport, sessions: map<nat, uint32>, registry: Registry,
                               requests: seq<ConnectionRequest>, audio: uint32, video: uint32)
    ensures var o := TransportToSdp(msg, bundle, tp, sessions, registry, requests, audio, video);
      o.ok <==> (bundle ==> BundleStreamName in registry.bundleNames) && Succeeds(msg.medias, bundle, sessions, registry.rtpNames)
    ensures var o := TransportToSdp(msg, bundle, tp, sessions, registry, requests, audio, video);
      o.ok ==>
        && AllRewritable(msg.medias, sessions)
        && o.msg == NegotiatedMessage(msg, bundle, tp, sessions)
        && o.st.requests == requests + (if bundle then [BundleConnectionRequest(BundleStreamName)] else RtpRequests(msg.medias))
        && o.st.audio == AnnouncedSsrc(msg.medias, AudioKind, sessions, audio)
        && o.st.video == AnnouncedSsrc(msg.medias, VideoKind, sessions, video)
  {
    var o := TransportToSdp(msg, bundle, tp, sessions, registry, requests, audio, video);
    if o.ok {
      var ms := msg.medias;
      var n := Progress(ms, bundle, sessions, registry.rtpNames);
      assert n == |ms|;
      assert ms[..n] == ms && ms[n..] == [];
      var requests' := if bundle then requests + [BundleConnectionRequest(BundleStreamName)] else requests;
      AfterMediasClosedForm(ms, bundle, sessions, n, requests', audio, video);
      assert RewriteAll(ms, tp, sessions) + [] == RewriteAll(ms, tp, sessions);
    }
  }

  /**
   * A failed call appends no group attribute, and a missing bundle
   * connection leaves the description and the local SSRCs as they were.
   */
  lemma TransportToSdpFails(msg: Message, bundle: bool, tp: Transport, sessions: map<nat, uint32>, registry: Registry,
                            requests: seq<ConnectionRequest>, audio: uint32, video: uint32)
    ensures var o := TransportToSdp(msg, bundle, tp, sessions, registry, requests, audio, video);
      !o.ok ==> o.msg.attributes == msg.attributes
    ensures var o := TransportToSdp(msg, bundle, tp, sessions, registry, requests, audio, video);
      bundle && BundleStreamName !in registry.bundleNames ==>
        !o.ok && o.msg == msg && o.st.audio == audio && o.st.video == video
  {
  }

  /**
   * Routing after start_transport_send: the SSRC announced by the last audio
   * media of the description routes to audio; the one announced by the last
   * video media routes to video, unless it also belongs to audio, which the
   * demuxer tries first.
   */
  lemma AnnouncedSsrcRoutes(
    rrPair: uint32 -> uint32, medias: seq<Media>, mediaSsrc: Media -> uint32,
    remoteAudio: uint32, localAudio: uint32, remoteVideo: uint32, localVideo: uint32, i: nat)
    requires i < |medias| && (medias[i].media == AudioKind || medias[i].media == VideoKind)
    requires forall j :: i < j < |medias| ==> medias[j].media != medias[i].media
    ensures var ra := LastSsrc(medias, AudioKind, mediaSsrc, remoteAudio);
      var rv := LastSsrc(medias, VideoKind, mediaSsrc, remoteVideo);
      var r := DemuxRoute(rrPair, mediaSsrc(medias[i]), ra, localAudio, rv, localVideo);
      (medias[i].media == AudioKind ==> r == AudioRoute) &&
      (medias[i].media == VideoKind ==>
        r == if BelongsTo(rrPair, mediaSsrc(medias[i]), ra, localAudio) then AudioRoute else VideoRoute)
  {
    LastSsrcOfLast(medias, medias[i].media, mediaSsrc, if medias[i].media == AudioKind then remoteAudio else remoteVideo, i);
  }

  class BaseRtpEndpoint {
    var proto: Option<string>
    var bundle: bool
    var rtcpMux: bool
    var rtcpFir: bool
    var rtcpNack: bool
    var rtcpPli: bool
    var rtcpRemb: bool

    var localAudioSsrc: uint32
    var remoteAudioSsrc: uint32
    var audioSsrc: uint32

    var localVideoSsrc: uint32
    var remoteVideoSsrc: uint32
    var videoSsrc: uint32

    var targetBitrate: Bitrate
    var minVideoSendBw: uint32
    var maxVideoSendBw: uint32

    /** The media-start and media-stop signals emitted, in order. */
    ghost var signals: seq<Signal>
    /** The calls made to the connection factories, in order. */
    ghost var connectionRequests: seq<ConnectionRequest>
    /** The connection steps start_transport_send has taken, in order. */
    ghost var transportSteps: seq<TransportStep>

    function CurrentSettings(): Settings
      reads this`proto, this`bundle, this`rtcpMux, this`rtcpFir, this`rtcpNack, this`rtcpPli, this`rtcpRemb,
        this`targetBitrate, this`minVideoSendBw, this`maxVideoSendBw
    {
      Settings(proto, bundle, rtcpMux, rtcpFir, rtcpNack, rtcpPli, rtcpRemb,
               targetBitrate, minVideoSendBw, maxVideoSendBw)
    }

    function Active(): ActiveSsrcs
      reads this`audioSsrc, this`videoSsrc
    {
      ActiveSsrcs(audioSsrc, videoSsrc)
    }

    function Flags(): FeedbackFlags
      reads this`rtcpFir, this`rtcpNack, this`rtcpPli, this`rtcpRemb
    {
      FeedbackFlags(rtcpFir, rtcpNack, rtcpPli, rtcpRemb)
    }

    /** The transport update_sdp_media writes: rtcp-mux whenever BUNDLE or rtcp-mux is on. */
    function CurrentTransport(cname: string, useIpv6: bool): Transport
      reads this`proto, this`bundle, this`rtcpMux, this`rtcpFir, this`rtcpNack, this`rtcpPli, this`rtcpRemb
    {
      Transport(proto, bundle || rtcpMux, Flags(), cname, useIpv6)
    }

    /** The settings' invariant, min-video-send-bandwidth <= max-video-send-bandwidth, on the two fields it reads. */
    predicate Valid()
      reads this`minVideoSendBw, this`maxVideoSendBw
    {
      minVideoSendBw <= maxVideoSendBw
    }

    /** kms_base_rtp_endpoint_init. */
    constructor()
      ensures Valid()
      ensures CurrentSettings() == DefaultSettings
      ensures localAudioSsrc == 0 && remoteAudioSsrc == 0 && audioSsrc == 0
      ensures localVideoSsrc == 0 && remoteVideoSsrc == 0 && videoSsrc == 0
      ensures signals == [] && connectionRequests == [] && transportSteps == []
    {
      proto := None;
      bundle := false;
      rtcpMux := false;
      rtcpFir := false;
      rtcpNack := false;
      rtcpPli := false;
      rtcpRemb := false;
      localAudioSsrc, remoteAudioSsrc, audioSsrc := 0, 0, 0;
      localVideoSsrc, remoteVideoSsrc, videoSsrc := 0, 0, 0;
      targetBitrate := 0;
      minVideoSendBw := MinVideoSendBwDefault;
      maxVideoSendBw := MaxVideoSendBwDefault;
      signals := [];
      connectionRequests := [];
      transportSteps := [];
    }

    /** kms_bse_rtp_endpoint_get_property. */
    function GetProperty(id: PropertyId): (p: Property)
      reads this
      ensures p.Id() == id && p == GetSetting(CurrentSettings(), id)
    {
      match id
      case ProtoId => Proto(proto)
      case BundleId => Bundle(bundle)
      case RtcpMuxId => RtcpMux(rtcpMux)
      case RtcpFirId => RtcpFir(rtcpFir)
      case RtcpNackId => RtcpNack(rtcpNack)
      case RtcpPliId => RtcpPli(rtcpPli)
      case RtcpRembId => RtcpRemb(rtcpRemb)
      case TargetBitrateId => TargetBitrate(targetBitrate)
      case MinVideoSendBwId => MinVideoSendBw(minVideoSendBw)
      case MaxVideoSendBwId => MaxVideoSendBw(maxVideoSendBw)
    }

    /** The min-video-send-bandwidth write: a value above the maximum stores the maximum. */
    method SetMinVideoSendBw(v: uint32)
      modifies this`minVideoSendBw
      ensures minVideoSendBw == if v > maxVideoSendBw then maxVideoSendBw else v
    {
      var bw := v;
      if bw > maxVideoSendBw {
        bw := maxVideoSendBw;
      }
      minVideoSendBw := bw;
    }

    /** The max-video-send-bandwidth write: a value below the minimum stores the minimum. */
    method SetMaxVideoSendBw(v: uint32)
      modifies this`maxVideoSendBw
      ensures maxVideoSendBw == if v < minVideoSendBw then minVideoSendBw else v
    {
      var bw := v;
      if bw < minVideoSendBw {
        bw := minVideoSendBw;
      }
      maxVideoSendBw := bw;
    }

    /** The writes of set_property that store the value as given. */
    method SetPlainProperty(p: Property)
      requires !p.MinVideoSendBw? && !p.MaxVideoSendBw?
      modifies this`proto, this`bundle, this`rtcpMux, this`rtcpFir, this`rtcpNack, this`rtcpPli, this`rtcpRemb,
        this`targetBitrate
      ensures CurrentSettings() == SetSetting(old(CurrentSettings()), p)
    {
      match p {
        case Proto(v) => proto := v;
        case Bundle(v) => bundle := v;
        case RtcpMux(v) => rtcpMux := v;
        case RtcpFir(v) => rtcpFir := v;
        case RtcpNack(v) => rtcpNack := v;
        case RtcpPli(v) => rtcpPli := v;
        case RtcpRemb(v) => rtcpRemb := v;
        case TargetBitrate(v) => targetBitrate := v;
      }
    }

    /** kms_base_rtp_endpoint_set_property. */
    method SetProperty(p: Property)
      requires Valid()
      modifies this`proto, this`bundle, this`rtcpMux, this`rtcpFir, this`rtcpNack, this`rtcpPli, this`rtcpRemb,
        this`targetBitrate, this`minVideoSendBw, this`maxVideoSendBw
      ensures CurrentSettings() == SetSetting(old(CurrentSettings()), p)
      ensures Valid()
    {
      match p {
        case MinVideoSendBw(v) => SetMinVideoSendBw(v);
        case MaxVideoSendBw(v) => SetMaxVideoSendBw(v);
        case _ => SetPlainProperty(p);
      }
    }

    /** kms_base_rtp_endpoint_rtpbin_on_new_ssrc. */
    method OnNewSsrc(session: nat, ssrc: uint32)
      modifies this`audioSsrc, this`videoSsrc
      ensures Active() == NewSsrc(old(Active()), session, ssrc)
    {
      if session == AudioSession {
        if audioSsrc == 0 {
          audioSsrc := ssrc;
        }
      } else if session == VideoSession {
        if videoSsrc == 0 {
          videoSsrc := ssrc;
        }
      }
    }

    /**
     * kms_base_rtp_endpoint_stop_signal, which the on-bye-ssrc, on-bye-timeout
     * and on-sender-timeout callbacks call unchanged.
     */
    method StopSignal(session: nat, ssrc: uint32)
      modifies this`audioSsrc, this`videoSsrc, this`signals
      ensures Active() == EndpointState.StopSignal(old(Active()), session, ssrc).active
      ensures signals == old(signals) + EndpointState.StopSignal(old(Active()), session, ssrc).emitted
    {
      var local := true;
      if ssrc == audioSsrc || ssrc == videoSsrc {
        local := false;
        if audioSsrc == ssrc {
          audioSsrc := 0;
        } else if videoSsrc == ssrc {
          videoSsrc := 0;
        }
      }
      var media := SessionMedia(session);
      if media.None? {
        return;
      }
      signals := signals + [MediaStop(media.value, local)];
    }

    /** kms_base_rtp_endpoint_rtpbin_on_ssrc_sdes. */
    method OnSsrcSdes(session: nat, ssrc: uint32)
      modifies this`signals
      ensures signals == old(signals) + SdesSignals(old(Active()), session, ssrc)
    {
      if ssrc != audioSsrc && ssrc != videoSsrc {
        return;
      }
      var media := SessionMedia(session);
      if media.None? {
        return;
      }
      signals := signals + [MediaStart(media.value, false)];
    }

    /** kms_base_rtp_endpoint_dispose: two stops per active media, audio first. */
    method Dispose()
      modifies this`audioSsrc, this`videoSsrc, this`signals
      ensures signals == old(signals) + EndpointState.Dispose(old(Active())).emitted
      ensures signals == old(signals) + StopPair(AudioMedia, old(audioSsrc)) + StopPair(VideoMedia, old(videoSsrc))
      ensures Active() == ActiveSsrcs(0, 0)
    {
      if audioSsrc != 0 {
        StopSignal(AudioSession, audioSsrc);
        signals := signals + [MediaStop(AudioMedia, true)];
      }
      if videoSsrc != 0 {
        StopSignal(VideoSession, videoSsrc);
        signals := signals + [MediaStop(VideoMedia, true)];
      }
      DisposeSignals(old(Active()));
    }

    /** The rtcp-fb lines media_set_rtcp_fb_attrs adds for one VP8 format, in the order fir, nack, pli, remb. */
    method AddRtcpFbLines(m: Media, pt: string) returns (r: Media)
      ensures r == m.(attributes := m.attributes + FeedbackLinesFor(pt, Flags()))
    {
      var attrs := m.attributes;
      if rtcpFir {
        attrs := attrs + [Attribute(RtcpFbKey, FeedbackValue(pt, Fir))];
      }
      assert attrs == m.attributes + FeedbackLine(pt, Fir, rtcpFir);
      ghost var a1 := attrs;
      if rtcpNack {
        attrs := attrs + [Attribute(RtcpFbKey, FeedbackValue(pt, Nack))];
      }
      assert attrs == a1 + FeedbackLine(pt, Nack, rtcpNack);
      ghost var a2 := attrs;
      if rtcpPli {
        attrs := attrs + [Attribute(RtcpFbKey, FeedbackValue(pt, Pli))];
      }
      assert attrs == a2 + FeedbackLine(pt, Pli, rtcpPli);
      ghost var a3 := attrs;
      if rtcpRemb {
        attrs := attrs + [Attribute(RtcpFbKey, FeedbackValue(pt, Remb))];
      }
      assert attrs == a3 + FeedbackLine(pt, Remb, rtcpRemb);
      FeedbackLinesForUnfold(pt, Flags());
      AppendFour(m.attributes, FeedbackLine(pt, Fir, rtcpFir), FeedbackLine(pt, Nack, rtcpNack),
                 FeedbackLine(pt, Pli, rtcpPli), FeedbackLine(pt, Remb, rtcpRemb));
      r := m.(attributes := attrs);
    }

    /**
     * kms_base_rtp_endpoint_media_set_rtcp_fb_attrs: for each VP8 format of a
     * video media, the enabled feedback lines in the order fir, nack, pli, remb.
     */
    method MediaSetRtcpFbAttrs(media: Media) returns (r: Media)
      ensures r == WithFeedback(media, Flags())
    {
      if media.media != VideoKind {
        return media;
      }
      ghost var fb := Flags();
      r := media;
      var i := 0;
      while i < |media.formats|
        invariant 0 <= i <= |media.formats|
        invariant r == media.(attributes := media.attributes + FeedbackLines(media, media.formats[..i], fb))
      {
        var pt := media.formats[i];
        FeedbackLinesStep(media, i, fb);
        var encodingName := EncodingName(r, pt);
        if IsVp8Name(encodingName) {
          r := AddRtcpFbLines(r, pt);
          AppendThree(media.attributes, FeedbackLines(media, media.formats[..i], fb), FeedbackLinesFor(pt, fb));
        }
        i := i + 1;
      }
      assert media.formats[..i] == media.formats;
    }

    /**
     * kms_base_rtp_endpoint_update_sdp_media: nothing happens for a kind other
     * than audio or video, or when rtpbin yields no session for it; otherwise
     * the media gets the endpoint's transport and its session's internal SSRC,
     * which also becomes the local SSRC of that kind.
     */
    method UpdateSdpMedia(media: Media, useIpv6: bool, cname: string, sessions: map<nat, uint32>)
      returns (kind: Option<string>, r: Media)
      modifies this`localAudioSsrc, this`localVideoSsrc
      ensures kind.Some? <==> Rewritable(media, sessions)
      ensures kind.None? ==> r == media
      ensures kind.Some? ==> (kind.value == media.media &&
        r == RewrittenMedia(media, old(CurrentTransport(cname, useIpv6)), SessionSsrc(media, sessions)))
      ensures localAudioSsrc == if kind.Some? && media.media == AudioKind then SessionSsrc(media, sessions) else old(localAudioSsrc)
      ensures localVideoSsrc == if kind.Some? && media.media == VideoKind then SessionSsrc(media, sessions) else old(localVideoSsrc)
    {
      var sessionId: nat;
      if media.media == AudioKind {
        sessionId := AudioSession;
      } else if media.media == VideoKind {
        sessionId := VideoSession;
      } else {
        return None, media;
      }
      if sessionId !in sessions {
        return None, media;
      }
      var ssrc := sessions[sessionId];
      var connections := RemoveConnections(media.connections);
      var attrs := media.attributes + [Attribute(RtcpKey, RtcpValue(useIpv6))];
      if bundle || rtcpMux {
        attrs := attrs + [Attribute(RtcpMuxKey, "")];
      }
      attrs := attrs + [Attribute(SsrcKey, SsrcValue(ssrc, cname))];
      assert attrs == media.attributes + TransportAttributes(CurrentTransport(cname, useIpv6), ssrc);
      if sessionId == AudioSession {
        localAudioSsrc := ssrc;
      } else {
        localVideoSsrc := ssrc;
      }
      r := media.(proto := proto, port := TransportPort,
                  connections := connections + [PlaceholderConnection(useIpv6)], attributes := attrs);
      r := MediaSetRtcpFbAttrs(r);
      kind := Some(media.media);
    }

    /**
     * One turn of the media loop of set_transport_to_sdp on media `i`: rewrite
     * it, then append its kind to the group value (BUNDLE) or request its
     * connection. `next` is false when the loop gives up here; a media that
     * cannot be rewritten leaves everything as it was.
     */
    method RewriteMediaAt(msg: Message, b: bool, i: nat, medias: seq<Media>, mids: string, useIpv6: bool, cname: string,
                          sessions: map<nat, uint32>, rtpNames: set<string>,
                          ghost tp: Transport, ghost requests: seq<ConnectionRequest>, ghost audio0: uint32, ghost video0: uint32)
      returns (next: bool, medias': seq<Media>, mids': string, ghost n: nat)
      requires i < |msg.medias| && b == bundle && tp == CurrentTransport(cname, useIpv6)
      requires Rewrote(msg, b, tp, sessions, i, medias, LoopState(mids, connectionRequests, localAudioSsrc, localVideoSsrc),
                       requests, audio0, video0)
      modifies this`localAudioSsrc, this`localVideoSsrc, this`connectionRequests
      ensures next <==> !MediaFails(msg.medias[i], b, sessions, rtpNames)
      ensures n == if Rewritable(msg.medias[i], sessions) then i + 1 else i
      ensures Rewrote(msg, b, tp, sessions, n, medias', LoopState(mids', connectionRequests, localAudioSsrc, localVideoSsrc),
                      requests, audio0, video0)
    {
      assert medias[i] == msg.medias[i];
      var kind, m := UpdateSdpMedia(medias[i], useIpv6, cname, sessions);
      if kind.None? {
        return false, medias, mids, i;
      }
      RewrittenOneMore(medias, msg.medias, tp, sessions, i);
      n := i + 1;
      medias' := medias[i := m];
      mids' := mids;
      next := true;
      if b {
        mids' := mids + " " + kind.value;
      } else {
        connectionRequests := connectionRequests + [RtpConnectionRequest(kind.value)];
        next := kind.value in rtpNames;
      }
    }

    /**
     * The media loop of set_transport_to_sdp: the media sections are rewritten
     * in turn until one makes the call fail; the media that made it fail is
     * rewritten too when only its connection was missing.
     */
    method RewriteMedias(msg: Message, b: bool, useIpv6: bool, cname: string, sessions: map<nat, uint32>, rtpNames: set<string>,
                         ghost tp: Transport, ghost requests: seq<ConnectionRequest>, ghost audio0: uint32, ghost video0: uint32)
      returns (ok: bool, medias: seq<Media>, mids: string, ghost n: nat)
      requires b == bundle && tp == CurrentTransport(cname, useIpv6)
      requires requests == connectionRequests && audio0 == localAudioSsrc && video0 == localVideoSsrc
      modifies this`localAudioSsrc, this`localVideoSsrc, this`connectionRequests
      ensures ok == Succeeds(msg.medias, b, sessions, rtpNames)
      ensures n == Progress(msg.medias, b, sessions, rtpNames)
      ensures Rewrote(msg, b, tp, sessions, n, medias, LoopState(mids, connectionRequests, localAudioSsrc, localVideoSsrc),
                      requests, audio0, video0)
    {
      medias := msg.medias;
      mids := "";
      var i := 0;
      assert msg.medias[..0] == [];
      while i < |msg.medias|
        invariant i <= |msg.medias| && NoneFails(msg.medias, b, sessions, rtpNames, i)
        invariant bundle == b && CurrentTransport(cname, useIpv6) == tp
        invariant Rewrote(msg, b, tp, sessions, i, medias, LoopState(mids, connectionRequests, localAudioSsrc, localVideoSsrc),
                          requests, audio0, video0)
      {
        var next;
        next, medias, mids, n := RewriteMediaAt(msg, b, i, medias, mids, useIpv6, cname, sessions, rtpNames,
                                                tp, requests, audio0, video0);
        if !next {
          ProgressAt(msg.medias, b, sessions, rtpNames, i);
          return false, medias, mids, n;
        }
        NoneFailsStep(msg.medias, b, sessions, rtpNames, i);
        i := i + 1;
      }
      ProgressAt(msg.medias, b, sessions, rtpNames, i);
      ok, n := true, i;
    }

    /**
     * The start of set_transport_to_sdp: a remote offer sets BUNDLE, rtcp-mux
     * and the VP8 feedback flags from what it announces.
     */
    method ReadRemoteOffer(remoteOffer: Option<Message>)
      modifies this`bundle, this`rtcpMux, this`rtcpFir, this`rtcpNack, this`rtcpPli, this`rtcpRemb
      ensures remoteOffer.Some? ==>
        && bundle == IsBundle(remoteOffer.value) && rtcpMux == IsRtcpMux(remoteOffer.value)
        && Flags() == Vp8FeedbackFlags(remoteOffer.value.medias)
      ensures remoteOffer.None? ==> bundle == old(bundle) && rtcpMux == old(rtcpMux) && Flags() == old(Flags())
    {
      if remoteOffer.Some? {
        bundle := IsBundle(remoteOffer.value);
        rtcpMux := IsRtcpMux(remoteOffer.value);
        rtcpFir, rtcpNack, rtcpPli, rtcpRemb := GetVp8RtcpFbAttrs(remoteOffer.value);
      }
    }

    /** The rest of set_transport_to_sdp, with the settings as they are: `msg` is rewritten as TransportToSdp describes. */
    method TransportToSdpWithSettings(msg: Message, useIpv6: bool, cname: string, sessions: map<nat, uint32>, registry: Registry)
      returns (ok: bool, out: Message)
      modifies this`localAudioSsrc, this`localVideoSsrc, this`connectionRequests
      ensures var o := TransportToSdp(msg, old(bundle), old(CurrentTransport(cname, useIpv6)), sessions, registry,
                                      old(connectionRequests), old(localAudioSsrc), old(localVideoSsrc));
        && ok == o.ok && out == o.msg
        && connectionRequests == o.st.requests && localAudioSsrc == o.st.audio && localVideoSsrc == o.st.video
    {
      var b := bundle;
      ghost var tp := CurrentTransport(cname, useIpv6);
      if b {
        connectionRequests := connectionRequests + [BundleConnectionRequest(BundleStreamName)];
        if BundleStreamName !in registry.bundleNames {
          return false, msg;
        }
      }
      var medias, mids;
      ghost var n;
      ok, medias, mids, n := RewriteMedias(msg, b, useIpv6, cname, sessions, registry.rtpNames,
                                           tp, connectionRequests, localAudioSsrc, localVideoSsrc);
      RewrittenUpToClosedForm(medias, msg.medias, tp, sessions, n);
      var attrs := msg.attributes;
      if ok && b {
        attrs := attrs + [Attribute(GroupKey, BundleToken + mids)];
      }
      out := Message(attrs, medias);
    }

    /**
     * kms_base_rtp_endpoint_set_transport_to_sdp: the settings a remote offer
     * announces, then `msg` rewritten as TransportToSdp describes. `cname` is
     * the CNAME of rtpbin's SDES and `registry` says which connections the
     * subclass can create.
     */
    method SetTransportToSdp(remoteOffer: Option<Message>, msg: Message, useIpv6: bool, cname: string,
                             sessions: map<nat, uint32>, registry: Registry) returns (ok: bool, out: Message)
      modifies this`bundle, this`rtcpMux, this`rtcpFir, this`rtcpNack, this`rtcpPli, this`rtcpRemb,
               this`localAudioSsrc, this`localVideoSsrc, this`connectionRequests
      ensures remoteOffer.Some? ==>
        && bundle == IsBundle(remoteOffer.value) && rtcpMux == IsRtcpMux(remoteOffer.value)
        && Flags() == Vp8FeedbackFlags(remoteOffer.value.medias)
      ensures remoteOffer.None? ==> bundle == old(bundle) && rtcpMux == old(rtcpMux) && Flags() == old(Flags())
      ensures var o := TransportToSdp(msg, bundle, CurrentTransport(cname, useIpv6), sessions, registry,
                                      old(connectionRequests), old(localAudioSsrc), old(localVideoSsrc));
        && ok == o.ok && out == o.msg
        && connectionRequests == o.st.requests && localAudioSsrc == o.st.audio && localVideoSsrc == o.st.video
    {
      ReadRemoteOffer(remoteOffer);
      ok, out := TransportToSdpWithSettings(msg, useIpv6, cname, sessions, registry);
    }

    /** One media of start_transport_send: its remote SSRC, then its REMB managers and connection. */
    method StartMediaSend(media: Media, b: bool, remb: bool, mediaSsrc: Media -> uint32)
      modifies this`remoteAudioSsrc, this`remoteVideoSsrc, this`transportSteps
      ensures remoteAudioSsrc == if media.media == AudioKind then mediaSsrc(media) else old(remoteAudioSsrc)
      ensures remoteVideoSsrc == if media.media == VideoKind then mediaSsrc(media) else old(remoteVideoSsrc)
      ensures transportSteps == old(transportSteps) + MediaSendSteps(media, b, remb)
    {
      if media.media == AudioKind {
        remoteAudioSsrc := mediaSsrc(media);
        if b {
          transportSteps := transportSteps + [AddBundleSink(AudioSession)];
        } else {
          transportSteps := transportSteps + [AddConnection(AudioKind, AudioSession)];
        }
      } else if media.media == VideoKind {
        remoteVideoSsrc := mediaSsrc(media);
        ghost var before := transportSteps;
        ghost var managers: seq<TransportStep> := if remb then [CreateRembManagers] else [];
        if remb {
          transportSteps := transportSteps + [CreateRembManagers];
        }
        var sink := if b then AddBundleSink(VideoSession) else AddConnection(VideoKind, VideoSession);
        transportSteps := transportSteps + [sink];
        assert transportSteps == before + (managers + [sink]);
      }
    }

    /**
     * kms_base_rtp_endpoint_start_transport_send: the negotiated description
     * is the answer when the offer was local and the offer otherwise. Each of
     * its audio and video media records its SSRC as the remote one (the last
     * such media wins) and adds its connection or bundle sink; a video media
     * first creates the REMB managers when rtcp-remb is on. `mediaSsrc`
     * stands for reading a media's "ssrc" attribute.
     */
    method StartTransportSend(offer: Message, answer: Message, localOffer: bool, mediaSsrc: Media -> uint32)
      modifies this`remoteAudioSsrc, this`remoteVideoSsrc, this`transportSteps
      ensures var sdp := if localOffer then answer else offer;
        && remoteAudioSsrc == LastSsrc(sdp.medias, AudioKind, mediaSsrc, old(remoteAudioSsrc))
        && remoteVideoSsrc == LastSsrc(sdp.medias, VideoKind, mediaSsrc, old(remoteVideoSsrc))
        && transportSteps == old(transportSteps) + (if bundle then [AddBundleConnection] else [])
                             + SendSteps(sdp.medias, bundle, rtcpRemb)
    {
      var sdp := if localOffer then answer else offer;
      var b, remb := bundle, rtcpRemb;
      if b {
        transportSteps := transportSteps + [AddBundleConnection];
      }
      ghost var steps0, audio0, video0 := transportSteps, remoteAudioSsrc, remoteVideoSsrc;
      var i := 0;
      while i < |sdp.medias|
        invariant i <= |sdp.medias|
        invariant remoteAudioSsrc == LastSsrc(sdp.medias[..i], AudioKind, mediaSsrc, audio0)
        invariant remoteVideoSsrc == LastSsrc(sdp.medias[..i], VideoKind, mediaSsrc, video0)
        invariant transportSteps == steps0 + SendSteps(sdp.medias[..i], b, remb)
      {
        StartMediaSend(sdp.medias[i], b, remb, mediaSsrc);
        SendStepsSnoc(sdp.medias, i, b, remb);
        LastSsrcSnoc(sdp.medias, i, AudioKind, mediaSsrc, audio0);
        LastSsrcSnoc(sdp.medias, i, VideoKind, mediaSsrc, video0);
        AppendThree(steps0, SendSteps(sdp.medias[..i], b, remb), MediaSendSteps(sdp.medias[i], b, remb));
        i := i + 1;
      }
      assert sdp.medias[..i] == sdp.medias;
    }

    /**
     * rtp_ssrc_demux_new_ssrc_pad: where the pads of a new SSRC of the bundle
     * demuxer are linked, from the SSRCs the endpoint knows at that moment.
     */
    method NewSsrcPad(rrPair: uint32 -> uint32, ssrc: uint32) returns (route: Route)
      ensures route == DemuxRoute(rrPair, ssrc, remoteAudioSsrc, localAudioSsrc, remoteVideoSsrc, localVideoSsrc)
    {
      if remoteAudioSsrc == ssrc || SsrcsAreMapped(rrPair, localAudioSsrc, ssrc) {
        route := AudioRoute;
      } else if remoteVideoSsrc == ssrc || SsrcsAreMapped(rrPair, localVideoSsrc, ssrc) {
        route := VideoRoute;
      } else {
        route := NoRoute;
      }
    }

    /** The inner loop of get_caps_for_pt, over the formats of one media. */
    method MediaCapsForPt(media: Media, pt: uint32) returns (caps: Option<Caps>)
      ensures caps == CapsInFormats(media, media.formats, pt, rtcpFir, rtcpPli)
    {
      var formats := media.formats;
      var j := 0;
      while j < |formats|
        invariant j <= |formats|
        invariant CapsInFormats(media, formats, pt, rtcpFir, rtcpPli) == CapsInFormats(media, formats[j..], pt, rtcpFir, rtcpPli)
      {
        var payload := formats[j];
        assert formats[j..][1..] == formats[j + 1..];
        if ToUint32(Atoi(payload)) == pt {
          caps := FormatCaps(media, payload, rtcpFir, rtcpPli);
          if caps.Some? {
            return;
          }
        }
        j := j + 1;
      }
      caps := None;
    }

    /**
     * kms_base_rtp_endpoint_get_caps_for_pt: scans the local answer, or the
     * remote answer when there is none, media by media and format by format,
     * for a format whose atoi value, as a guint, is `pt` and whose rtpmap
     * parses; video caps carry the rtcp-fir and rtcp-pli settings.
     */
    method GetCapsForPt(localAnswer: Option<Message>, remoteAnswer: Option<Message>, pt: uint32) returns (caps: Option<Caps>)
      ensures caps == CapsForPt(localAnswer, remoteAnswer, pt, rtcpFir, rtcpPli)
    {
      var answer := if localAnswer.Some? then localAnswer else remoteAnswer;
      if answer.None? {
        return None;
      }
      var medias := answer.value.medias;
      var i := 0;
      while i < |medias|
        invariant i <= |medias|
        invariant CapsInMedias(medias, pt, rtcpFir, rtcpPli) == CapsInMedias(medias[i..], pt, rtcpFir, rtcpPli)
      {
        assert medias[i..][1..] == medias[i + 1..];
        caps := MediaCapsForPt(medias[i], pt);
        if caps.Some? {
          return;
        }
        i := i + 1;
      }
      caps := None;
    }

    /** kms_base_rtp_endpoint_request_pt_map: the negotiated caps for `pt`, or the fallback caps. */
    method RequestPtMap(localAnswer: Option<Message>, remoteAnswer: Option<Message>, pt: uint32) returns (r: PtMap)
      ensures r == PtMapFor(localAnswer, remoteAnswer, pt, rtcpFir, rtcpPli)
    {
      var caps := GetCapsForPt(localAnswer, remoteAnswer, pt);
      if caps.Some? {
        return Found(caps.value);
      }
      r := Fallback(pt, rtcpFir, rtcpPli);
    }
  }
}
