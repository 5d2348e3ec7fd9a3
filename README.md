# Base RTP endpoint of kms-core, modelled in Dafny

This project models the negotiation and SSRC bookkeeping of Kurento's base RTP
endpoint (`KmsBaseRtpEndpoint`, `src/gst-plugins/commons/kmsbasertpendpoint.c`):

- how the endpoint reads BUNDLE, rtcp-mux and the VP8 rtcp-fb flags from a
  remote offer;
- how it rewrites each media section of the description it produces
  (protocol, placeholder connection, `rtcp`, `rtcp-mux`, `ssrc` and `rtcp-fb`
  attributes) and builds the session-level BUNDLE group;
- its private state: the GObject properties with the send-bandwidth clamp,
  the local, remote and active SSRCs, and the media-start / media-stop
  signals;
- the decision that routes a new SSRC of the bundle demuxer to audio, video
  or nothing;
- the parsing of `rtpmap` values into RTP caps, and the caps lookup for a
  payload type that rtpbin's `request-pt-map` performs.

SDP messages and media sections are values (`Sdp.Message`, `Sdp.Media`).
Functions of the source that edit a `GstSDPMedia` in place return the edited
value. The endpoint itself is the class `Endpoint.BaseRtpEndpoint`, whose
fields are the private fields of the C structure. Its methods update those
fields step by step. Each method is proved against a function on values in
the modules `Negotiation`, `Formats`, `Routing` and `EndpointState`, and the
properties are proved about those functions.

Modules, one file each:

| file | module | contents |
|---|---|---|
| text.dfy | Text | Option, `atoi`, case-insensitive compare, substring search, `g_strsplit` |
| sdp.dfy | Sdp | SDP values and the attribute lookups of the SDP utilities |
| negotiation.dfy | Negotiation | `is_bundle`, `is_rtcp_mux`, rtcp-fb reading and writing, per-media rewrite, the whole-message result |
| formats.dfy | Formats | codec names, `rtpmap` parsing, caps for a payload type |
| routing.dfy | Routing | `ssrcs_are_mapped` and the bundle demuxer's routing decision |
| state.dfy | EndpointState | properties and clamp, active SSRCs and signals, the steps of `start_transport_send` |
| endpoint.dfy | Endpoint | the bookkeeping of `set_transport_to_sdp` and the class `BaseRtpEndpoint` |

The environment is passed in as values:

- `sessions` maps each RTP session that rtpbin can create to its internal
  SSRC. A missing key is a session rtpbin does not yield.
- `registry` names the connections that `create_connection` and
  `create_bundle_connection` can build. Any other name gives NULL.
- `mediaSsrc` stands for `sdp_utils_media_get_ssrc`.
- `rrPair` stands for the RTCP demuxer's `get-local-rr-ssrc-pair` signal.
- `cname` is the CNAME of rtpbin's SDES structure.
- `useIpv6` is the `use-ipv6` property.
- The remote offer, local answer and remote answer are `Option<Message>`
  parameters.

Constants from headers outside this file are used as Kurento defines them:

- media kinds "audio" and "video";
- audio session 0 and video session 1;
- feedback types "ccm fir", "nack", "nack pli" and "goog-remb";
- bundle stream name "bundle";
- bandwidth defaults 100 and 500.

Some of the code's behaviour is easy to misread; the model follows the code
as written:

- A remote SSRC that is already set is overwritten by the next media of its
  kind, with only a warning (`LastSsrcOverwrites`). It is not rejected.
- Writing a minimum above the current maximum stores the current maximum.
  Writing a maximum below the current minimum stores the current minimum.
  The written value is not stored in either case (`SetThenGet`).
- `g_ascii_strcasecmp (VP8, NULL)` is 0, so a format without an `rtpmap`
  counts as VP8 when feedback lines are read and written (`Sdp.IsVp8Name`).
- The connection-removal loop of `update_sdp_media` removes index `c` while
  the list shrinks. It keeps the connections at odd positions
  (`Negotiation.RemoveConnections`), and the placeholder connection is
  appended after them.
- `stop_signal` and `on_ssrc_sdes` compare the SSRC with the audio and video
  fields without checking that they are set, so an SSRC of 0 matches an unset
  slot (`EndpointState.ZeroSsrcMatchesUnsetSlot`).
- `dispose` clears the active SSRCs but does not stop later callbacks: a bye
  arriving afterwards, even for the SSRC that was active, is reported as a
  local stop (`EndpointState.LateByeAfterDispose`).
- BUNDLE implies rtcp-mux only in the attributes written: the `rtcp-mux`
  field itself is not changed (`Endpoint.BaseRtpEndpoint.CurrentTransport`).

## Model

| member | source | states |
|---|---|---|
| Negotiation.GroupsBundleIff | src/gst-plugins/commons/kmsbasertpendpoint.c:117-154 | BUNDLE is on iff the first group value containing "BUNDLE" has non-empty text after its first "BUNDLE"; later group values are never consulted |
| Negotiation.IsBundleIff | src/gst-plugins/commons/kmsbasertpendpoint.c:117-154 | sdp_message_is_bundle stated over the message's group attributes, false when no group value contains "BUNDLE" |
| Negotiation.GroupsBundleOfGroupValue | src/gst-plugins/commons/kmsbasertpendpoint.c:117-154 | a group value "BUNDLE<mids>" reads back as BUNDLE iff the mid text is non-empty, so a bare "BUNDLE" gives false |
| Negotiation.AllMuxIff | src/gst-plugins/commons/kmsbasertpendpoint.c:156-173 | rtcp-mux holds iff every media section has an rtcp-mux attribute, and holds for no media |
| Negotiation.IsRtcpMuxIff | src/gst-plugins/commons/kmsbasertpendpoint.c:156-173 | sdp_message_is_rtcp_mux stated over the message's media sections |
| Negotiation.FeedbackValueInjective | src/gst-plugins/commons/kmsbasertpendpoint.c:175-187 | rtcp_fb_attr_check_type matches exactly one (payload type, feedback type) pair per value |
| Negotiation.FlagsForSnoc | src/gst-plugins/commons/kmsbasertpendpoint.c:189-250 | one more rtcp-fb value switches on at most the one flag whose type it names, and only for the payload type it names |
| Negotiation.ScanFeedback | src/gst-plugins/commons/kmsbasertpendpoint.c:218-245 | the scan of one media's rtcp-fb values sets each flag iff some value is exactly "<pt> <type>" |
| Negotiation.FirstVp8From | src/gst-plugins/commons/kmsbasertpendpoint.c:207-216 | the payload type read is the first format at or after the start position that passes the VP8 test, none when no later format does |
| Negotiation.GetVp8RtcpFbAttrs | src/gst-plugins/commons/kmsbasertpendpoint.c:189-250 | the four flags start false and are read only for the first VP8 payload type of the first video media that has one |
| Negotiation.Vp8FeedbackFlagsWithoutVp8Video | src/gst-plugins/commons/kmsbasertpendpoint.c:189-250 | without a video media carrying a VP8 format, all four flags are false |
| Negotiation.FormatLinesMembership | src/gst-plugins/commons/kmsbasertpendpoint.c:252-298 | the lines written for one format carry "<pt> <type>" iff the format is that payload type, is VP8 and the type is enabled |
| Negotiation.FeedbackLinesMembership | src/gst-plugins/commons/kmsbasertpendpoint.c:252-298 | the written lines carry "<pt> <type>" iff pt is a VP8 format of the media and the type is enabled |
| Negotiation.FeedbackRoundTrip | src/gst-plugins/commons/kmsbasertpendpoint.c:189-298 | reading back a video media with a VP8 format and no earlier rtcp-fb lines gives exactly the flags written into it |
| Negotiation.SessionOf | src/gst-plugins/commons/kmsbasertpendpoint.c:339-349 | audio maps to session 0, video to session 1, any other kind to no session |
| Negotiation.SsrcValueReadsBack | src/gst-plugins/commons/kmsbasertpendpoint.c:384-386 | the "ssrc" value "<ssrc> cname:<cname>" reads back through atoi as the SSRC it was written with |
| Negotiation.TransportAttributeValues | src/gst-plugins/commons/kmsbasertpendpoint.c:373-386 | the rewrite adds exactly one rtcp value, an rtcp-mux attribute iff BUNDLE or rtcp-mux is on, and exactly one ssrc value |
| Negotiation.RemoveConnections | src/gst-plugins/commons/kmsbasertpendpoint.c:368-370 | the removal loop keeps exactly the connections at odd positions |
| Negotiation.RewrittenMediaFacts | src/gst-plugins/commons/kmsbasertpendpoint.c:324-397 | a rewritten media has the endpoint's proto, port 1, the surviving connections plus the placeholder, and its formats and kind unchanged |
| Negotiation.RewrittenFeedbackRoundTrip | src/gst-plugins/commons/kmsbasertpendpoint.c:324-397 | the transport attributes added by the rewrite do not disturb the rtcp-fb round trip |
| Negotiation.MidList | src/gst-plugins/commons/kmsbasertpendpoint.c:457-462 | the mid text is empty iff no media was processed |
| Negotiation.FirstFailure | src/gst-plugins/commons/kmsbasertpendpoint.c:443-478 | the loop stops at the first media that has no session or whose connection cannot be created; all earlier media went through |
| Negotiation.Progress | src/gst-plugins/commons/kmsbasertpendpoint.c:443-478 | the media rewritten before the loop stops all have a session |
| Negotiation.AnnouncedSsrc | src/gst-plugins/commons/kmsbasertpendpoint.c:388-392 | the local SSRC of a kind is its session's SSRC when some media has that kind, and is unchanged otherwise |
| Negotiation.AllMuxOfRewriteAll | src/gst-plugins/commons/kmsbasertpendpoint.c:377-379 | after the rewrite every media has rtcp-mux iff the transport muxes or every media already had it |
| Negotiation.Vp8FeedbackOfRewriteAll | src/gst-plugins/commons/kmsbasertpendpoint.c:252-298 | the rewritten media read back the endpoint's flags if some video media has a VP8 format, and no flags otherwise |
| Negotiation.NegotiationRoundTrip | src/gst-plugins/commons/kmsbasertpendpoint.c:399-493 | a peer reading the produced description derives BUNDLE iff bundling with some media, rtcp-mux iff muxing or already muxed, and the endpoint's feedback flags |
| Endpoint.RtpRequests | src/gst-plugins/commons/kmsbasertpendpoint.c:463-477 | without BUNDLE, one connection is requested per media, named by its kind, in order |
| Endpoint.AfterMediasClosedForm | src/gst-plugins/commons/kmsbasertpendpoint.c:443-478 | the loop's bookkeeping equals the mid list, one request per media when not bundling, and the SSRC of the last media of each kind |
| Endpoint.RewrittenUpToClosedForm | src/gst-plugins/commons/kmsbasertpendpoint.c:443-456 | the media list after the loop is its rewritten prefix followed by the untouched rest |
| Endpoint.TransportToSdpSucceeds | src/gst-plugins/commons/kmsbasertpendpoint.c:399-493 | the call succeeds iff the bundle connection, when wanted, exists and no media fails; on success the message, the requests and the local SSRCs are the negotiated ones |
| Endpoint.TransportToSdpFails | src/gst-plugins/commons/kmsbasertpendpoint.c:426-434 | a failed call adds no group attribute; a missing bundle connection changes neither the message nor the local SSRCs |
| Formats.GetCapsCodecName | src/gst-plugins/commons/kmsbasertpendpoint.c:799-810 | OPUS in any case becomes X-GST-OPUS-DRAFT-SPITTKA-00, otherwise VP8 in any case becomes VP8-DRAFT-IETF-01, and every other name passes through unchanged |
| Formats.GetCapsCodecNameIdempotent | src/gst-plugins/commons/kmsbasertpendpoint.c:799-810 | mapping an already mapped name changes nothing |
| Formats.GetCapsFromRtpmap | src/gst-plugins/commons/kmsbasertpendpoint.c:812-840 | caps exist iff the rtpmap exists and has a second "/"-token; their media and payload are the inputs |
| Formats.RtpmapRoundTrip | src/gst-plugins/commons/kmsbasertpendpoint.c:812-840 | an rtpmap written as "<enc>/<rate>[/<params>]" parses back to the payload type, clock rate and mapped encoding name it was written with |
| Formats.FormatCaps | src/gst-plugins/commons/kmsbasertpendpoint.c:1066-1083 | caps for one format carry its atoi payload, and the rtcp-fir and rtcp-pli fields exactly on video media |
| Formats.CapsInFormats | src/gst-plugins/commons/kmsbasertpendpoint.c:1059-1086 | caps found among a media's formats have the requested payload type, as a guint |
| Formats.CapsInFormatsFirst | src/gst-plugins/commons/kmsbasertpendpoint.c:1059-1086 | the caps found are those of the first format whose atoi value is the payload type and whose rtpmap parses |
| Formats.CapsInFormatsNone | src/gst-plugins/commons/kmsbasertpendpoint.c:1059-1086 | no caps are found when no format answers the payload type |
| Formats.CapsInMedias | src/gst-plugins/commons/kmsbasertpendpoint.c:1055-1087 | caps found among the media have the requested payload type |
| Formats.CapsInMediasFirst | src/gst-plugins/commons/kmsbasertpendpoint.c:1055-1087 | the caps found are those of the first media that has an answering format |
| Formats.CapsInMediasNone | src/gst-plugins/commons/kmsbasertpendpoint.c:1055-1087 | no caps are found when no media has an answering format |
| Formats.AnswerOf | src/gst-plugins/commons/kmsbasertpendpoint.c:1046-1053 | the local answer is used when there is one, the remote answer otherwise, nothing when neither exists |
| Formats.CapsForPt | src/gst-plugins/commons/kmsbasertpendpoint.c:1038-1093 | no caps without an answer; caps found always carry the requested payload type |
| Formats.PtMapFor | src/gst-plugins/commons/kmsbasertpendpoint.c:1095-1118 | the fallback caps are given exactly when no negotiated caps exist, and carry the payload type and the rtcp-fir and rtcp-pli settings |
| Routing.DemuxRoute | src/gst-plugins/commons/kmsbasertpendpoint.c:528-573 | audio iff the SSRC is the remote audio SSRC or pairs with a set local audio SSRC; video under the same rule only when audio does not apply; nothing otherwise |
| Routing.RouteWithoutLocalSsrcs | src/gst-plugins/commons/kmsbasertpendpoint.c:528-540 | with no local SSRC set, only an exact remote SSRC is routed |
| Routing.RouteDependsOnPairAtSsrc | src/gst-plugins/commons/kmsbasertpendpoint.c:528-540 | the routing depends on the receiver-report pairing only at the new SSRC |
| Endpoint.AnnouncedSsrcRoutes | src/gst-plugins/commons/kmsbasertpendpoint.c:528-573 | after start_transport_send the SSRC of the last audio media routes to audio, and that of the last video media routes to video unless it also belongs to audio |
| EndpointState.GetSetting | src/gst-plugins/commons/kmsbasertpendpoint.c:1300-1345 | reading a property gives a value of that property |
| EndpointState.SetSetting | src/gst-plugins/commons/kmsbasertpendpoint.c:1231-1298 | a write keeps min <= max and changes no other property |
| EndpointState.SetThenGet | src/gst-plugins/commons/kmsbasertpendpoint.c:1268-1291 | an unclamped write reads back as written; a minimum above the maximum reads back as the maximum; a maximum below the minimum reads back as the minimum |
| EndpointState.SetAllKeepsBandwidthOrder | src/gst-plugins/commons/kmsbasertpendpoint.c:1231-1298 | any sequence of writes keeps min <= max |
| EndpointState.DefaultsKeepBandwidthOrder | src/gst-plugins/commons/kmsbasertpendpoint.c:1584-1626 | from the defaults 100 and 500, any sequence of writes keeps min <= max |
| EndpointState.SessionMedia | src/gst-plugins/commons/kmsbasertpendpoint.c:1196-1229 | session 0 is audio, session 1 is video, any other session is neither |
| EndpointState.NewSsrc | src/gst-plugins/commons/kmsbasertpendpoint.c:1498-1526 | the active SSRC of the session's media is set only while it is 0; unknown sessions change nothing |
| EndpointState.FirstNonZero | src/gst-plugins/commons/kmsbasertpendpoint.c:1498-1526 | the first non-zero SSRC of a sequence, 0 iff all are 0 |
| EndpointState.FirstSeenWins | src/gst-plugins/commons/kmsbasertpendpoint.c:1498-1526 | for the audio and for the video session, after a sequence of new SSRCs the session's active SSRC is the first non-zero one unless one was already active, and the other media's SSRC is unchanged |
| EndpointState.StopSignal | src/gst-plugins/commons/kmsbasertpendpoint.c:1196-1229 | the matching active SSRC is cleared, audio first; one media-stop is emitted for a known session, local iff the SSRC equals neither the current audio nor the current video SSRC (an SSRC of 0 matches an unset slot) |
| EndpointState.StopSignalClearsAtMostOne | src/gst-plugins/commons/kmsbasertpendpoint.c:1196-1229 | a stop clears at most one active SSRC |
| EndpointState.SdesSignals | src/gst-plugins/commons/kmsbasertpendpoint.c:1544-1574 | a remote media-start is emitted iff the SSRC equals the current audio or video SSRC (an SSRC of 0 matches an unset slot) and the session is known |
| EndpointState.DisposeSignals | src/gst-plugins/commons/kmsbasertpendpoint.c:1347-1372 | dispose emits two stops per active media, remote then local, audio before video, and clears both SSRCs |
| EndpointState.ZeroSsrcMatchesUnsetSlot | src/gst-plugins/commons/kmsbasertpendpoint.c:1196-1229 | while a slot is unset, a bye for SSRC 0 emits a remote stop and an SDES for SSRC 0 a remote media-start |
| EndpointState.LateByeAfterDispose | src/gst-plugins/commons/kmsbasertpendpoint.c:1347-1372 | after dispose, a bye for any non-zero SSRC emits a local stop and leaves both SSRCs 0 |
| EndpointState.LastSsrcOverwrites | src/gst-plugins/commons/kmsbasertpendpoint.c:702-723 | a remote SSRC already set is overwritten by a media of its kind and kept otherwise |
| EndpointState.LastSsrcOfLast | src/gst-plugins/commons/kmsbasertpendpoint.c:698-723 | after the loop the remote SSRC of a kind is the SSRC of the last media of that kind |
| EndpointState.RembManagersPerVideoMedia | src/gst-plugins/commons/kmsbasertpendpoint.c:717-727 | the REMB managers are created once per video media when rtcp-remb is on, and never otherwise |
| EndpointState.BundleAddsNoConnections | src/gst-plugins/commons/kmsbasertpendpoint.c:692-735 | with BUNDLE no per-media connection is added |
| Endpoint.BaseRtpEndpoint.constructor | src/gst-plugins/commons/kmsbasertpendpoint.c:1584-1626 | the defaults: flags off, no proto, SSRCs 0, bandwidth 100..500 |
| Endpoint.BaseRtpEndpoint.GetProperty | src/gst-plugins/commons/kmsbasertpendpoint.c:1300-1345 | each property reads the field of the same name |
| Endpoint.BaseRtpEndpoint.SetMinVideoSendBw | src/gst-plugins/commons/kmsbasertpendpoint.c:1268-1279 | a minimum above the maximum stores the maximum |
| Endpoint.BaseRtpEndpoint.SetMaxVideoSendBw | src/gst-plugins/commons/kmsbasertpendpoint.c:1280-1291 | a maximum below the minimum stores the minimum |
| Endpoint.BaseRtpEndpoint.SetPlainProperty | src/gst-plugins/commons/kmsbasertpendpoint.c:1240-1267 | the other writes store the value given and change nothing else |
| Endpoint.BaseRtpEndpoint.SetProperty | src/gst-plugins/commons/kmsbasertpendpoint.c:1231-1298 | the new settings are the write applied to the old ones, and min <= max is kept |
| Endpoint.BaseRtpEndpoint.OnNewSsrc | src/gst-plugins/commons/kmsbasertpendpoint.c:1498-1526 | the active SSRCs follow first-seen-wins |
| Endpoint.BaseRtpEndpoint.StopSignal | src/gst-plugins/commons/kmsbasertpendpoint.c:1196-1229 | the active SSRCs and the emitted signals are those of the stop rule, which compares the SSRC with the raw audio and video fields |
| Endpoint.BaseRtpEndpoint.OnSsrcSdes | src/gst-plugins/commons/kmsbasertpendpoint.c:1544-1574 | the signals emitted are those of the SDES rule: a remote media-start only for an SSRC equal to the current audio or video SSRC, on a known session |
| Endpoint.BaseRtpEndpoint.Dispose | src/gst-plugins/commons/kmsbasertpendpoint.c:1347-1372 | exactly two stops per active media, audio first, and both active SSRCs cleared |
| Endpoint.BaseRtpEndpoint.AddRtcpFbLines | src/gst-plugins/commons/kmsbasertpendpoint.c:271-293 | one rtcp-fb line per enabled flag, in the order fir, nack, pli, remb |
| Endpoint.BaseRtpEndpoint.MediaSetRtcpFbAttrs | src/gst-plugins/commons/kmsbasertpendpoint.c:252-298 | a video media gains the feedback lines of each of its VP8 formats; other media are untouched |
| Endpoint.BaseRtpEndpoint.UpdateSdpMedia | src/gst-plugins/commons/kmsbasertpendpoint.c:324-397 | no change for a kind other than audio or video or a missing session; otherwise the rewritten media and the session SSRC stored as the local SSRC of the kind |
| Endpoint.BaseRtpEndpoint.RewriteMediaAt | src/gst-plugins/commons/kmsbasertpendpoint.c:444-477 | one turn of the loop goes on iff the media has a session and, without BUNDLE, its connection exists |
| Endpoint.BaseRtpEndpoint.RewriteMedias | src/gst-plugins/commons/kmsbasertpendpoint.c:442-478 | the loop succeeds iff no media fails, and stops having rewritten exactly the media before the first failure |
| Endpoint.BaseRtpEndpoint.ReadRemoteOffer | src/gst-plugins/commons/kmsbasertpendpoint.c:413-424 | a remote offer sets BUNDLE, rtcp-mux and the feedback flags from what it announces; without one they are unchanged |
| Endpoint.BaseRtpEndpoint.TransportToSdpWithSettings | src/gst-plugins/commons/kmsbasertpendpoint.c:426-493 | the result, message, requests and local SSRCs are those of the negotiation function |
| Endpoint.BaseRtpEndpoint.SetTransportToSdp | src/gst-plugins/commons/kmsbasertpendpoint.c:399-493 | the flags are read from the remote offer, then the result, message, requests and local SSRCs are those of the negotiation function |
| Endpoint.BaseRtpEndpoint.StartMediaSend | src/gst-plugins/commons/kmsbasertpendpoint.c:699-738 | one media stores its SSRC as the remote SSRC of its kind and takes its connection steps |
| Endpoint.BaseRtpEndpoint.StartTransportSend | src/gst-plugins/commons/kmsbasertpendpoint.c:669-743 | the remote SSRCs are those of the last media of each kind in the description used, and the steps are the bundle connection then each media's steps |
| Endpoint.BaseRtpEndpoint.NewSsrcPad | src/gst-plugins/commons/kmsbasertpendpoint.c:542-573 | a new SSRC of the bundle demuxer is routed by the routing decision on the current SSRCs |
| Endpoint.BaseRtpEndpoint.MediaCapsForPt | src/gst-plugins/commons/kmsbasertpendpoint.c:1059-1086 | the format loop returns the caps of the first answering format |
| Endpoint.BaseRtpEndpoint.GetCapsForPt | src/gst-plugins/commons/kmsbasertpendpoint.c:1038-1093 | the caps returned are those of the first answering format of the answer in use |
| Endpoint.BaseRtpEndpoint.RequestPtMap | src/gst-plugins/commons/kmsbasertpendpoint.c:1095-1118 | the negotiated caps for the payload type, or the fallback caps |
| Text.AtoiOfNatToString | src/gst-plugins/commons/kmsbasertpendpoint.c:833-836 | atoi reads back a printed number when no digit follows it |

## Left out

- GStreamer pipeline plumbing is not modelled: payloader and depayloader
  search, pad requests and links, the jitterbuffer settings and rtpbin's
  pad-added handling. Connections are recorded only as the requests and
  steps the endpoint makes (`ConnectionRequest`, `TransportStep`).
- REMB manager internals live in kmsremb.h, which is not part of this model.
  `create_remb_managers` is the single step `CreateRembManagers`; the SSRCs
  and bandwidth bounds it passes on are not recorded.
- Locking and callback concurrency are not modelled: each callback runs
  atomically.
- The GRegex engine is not modelled: `BUNDLE(?<mids>.*)?` becomes "the text
  after the first BUNDLE".
- The SDP utilities (`sdp_utils_*`) and the GStreamer SDP API are not part
  of this model. Their lookups are functions in module Sdp, and
  `sdp_utils_media_get_ssrc` is the parameter `mediaSsrc`.
- Text.Atoi: the C `int` overflow of `atoi` is not modelled; the value is an
  unbounded integer, and the comparison with a guint payload type wraps
  through `ToUint32`.
- Endpoint.BaseRtpEndpoint.SetTransportToSdp: `use-ipv6` is read once per call
  rather than once per media, and the CNAME is a parameter.
- Endpoint.BaseRtpEndpoint.StartTransportSend: the `local_offer` flag passed
  to the connection functions and the warning about different media counts
  are not recorded.
- Endpoint.BaseRtpEndpoint.UpdateSdpMedia: media sections are rewritten as
  values, not in place, so aliasing of the `GstSDPMedia` is not captured.
- The check for a kind other than audio or video in the non-BUNDLE branch of
  `set_transport_to_sdp` (lines 466-470) cannot be reached, because
  `update_sdp_media` has already failed for such a kind; it is not modelled.
- GObject type and class registration, the default connection stubs and
  `finalize` are boilerplate and are not modelled.
- The bye and timeout callbacks (lines 1528-1542 and 1576-1582) only call
  `stop_signal`, so they are modelled by `StopSignal`.
