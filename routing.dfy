/**
 * The demultiplexing decision for a bundled transport: when the SSRC demuxer
 * sees a new SSRC, its pads are linked to the audio session, to the video
 * session, or to nothing.
 */
module Routing {
  import opened Text

  datatype Route = AudioRoute | VideoRoute | NoRoute

  /**
   * ssrcs_are_mapped: the RTCP demuxer's receiver-report pairing maps the
   * remote SSRC to `localSsrc`, and that local SSRC is set. `rrPair` stands
   * for the "get-local-rr-ssrc-pair" action signal.
   */
  predicate SsrcsAreMapped(rrPair: uint32 -> uint32, localSsrc: uint32, remoteSsrc: uint32)
  {
    localSsrc != 0 && rrPair(remoteSsrc) == localSsrc
  }

  /** An SSRC belongs to a media when it is that media's remote SSRC or reports on its local one. */
  predicate BelongsTo(rrPair: uint32 -> uint32, ssrc: uint32, remoteSsrc: uint32, localSsrc: uint32)
  {
    remoteSsrc == ssrc || SsrcsAreMapped(rrPair, localSsrc, ssrc)
  }

  /** rtp_ssrc_demux_new_ssrc_pad: audio is tried first, then video. */
  function DemuxRoute(
    rrPair: uint32 -> uint32, ssrc: uint32,
    remoteAudioSsrc: uint32, localAudioSsrc: uint32,
    remoteVideoSsrc: uint32, localVideoSsrc: uint32): (r: Route)
    ensures r == AudioRoute <==> BelongsTo(rrPair, ssrc, remoteAudioSsrc, localAudioSsrc)
    ensures r == VideoRoute <==>
      !BelongsTo(rrPair, ssrc, remoteAudioSsrc, localAudioSsrc) && BelongsTo(rrPair, ssrc, remoteVideoSsrc, localVideoSsrc)
    ensures r == NoRoute <==>
      !BelongsTo(rrPair, ssrc, remoteAudioSsrc, localAudioSsrc) && !BelongsTo(rrPair, ssrc, remoteVideoSsrc, localVideoSsrc)
  {
    if remoteAudioSsrc == ssrc || SsrcsAreMapped(rrPair, localAudioSsrc, ssrc) then AudioRoute
    else if remoteVideoSsrc == ssrc || SsrcsAreMapped(rrPair, localVideoSsrc, ssrc) then VideoRoute
    else NoRoute
  }

  /**
   * With no local SSRCs announced yet, only an exact remote SSRC is routed:
   * the receiver-report pairing is never consulted.
   */
  lemma RouteWithoutLocalSsrcs(
    rrPair: uint32 -> uint32, ssrc: uint32, remoteAudioSsrc: uint32, remoteVideoSsrc: uint32)
    ensures DemuxRoute(rrPair, ssrc, remoteAudioSsrc, 0, remoteVideoSsrc, 0) ==
      if remoteAudioSsrc == ssrc then AudioRoute
      else if remoteVideoSsrc == ssrc then VideoRoute
      else NoRoute
  {
  }

  /**
   * The decision depends on the pairing only at `ssrc`: two pairings that
   * agree there route the same way.
   */
  lemma RouteDependsOnPairAtSsrc(
    rr1: uint32 -> uint32, rr2: uint32 -> uint32, ssrc: uint32,
    remoteAudioSsrc: uint32, localAudioSsrc: uint32,
    remoteVideoSsrc: uint32, localVideoSsrc: uint32)
    requires rr1(ssrc) == rr2(ssrc)
    ensures DemuxRoute(rr1, ssrc, remoteAudioSsrc, localAudioSsrc, remoteVideoSsrc, localVideoSsrc)
         == DemuxRoute(rr2, ssrc, remoteAudioSsrc, localAudioSsrc, remoteVideoSsrc, localVideoSsrc)
  {
  }
}
