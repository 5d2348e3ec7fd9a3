/**
 * SDP transport negotiation of the base RTP endpoint: the flags derived from
 * a remote offer (BUNDLE grouping of RFC 5888 section 5, rtcp-mux of RFC 5761
 * section 5.1.1, rtcp-fb of RFC 4585 section 4.2), the feedback lines written
 * back, the per-media transport rewrite (rtcp attribute of RFC 3605, ssrc
 * attribute of RFC 5576 section 4.1) and the session-level BUNDLE group.
 */
module Negotiation {
  import opened Text
  import opened Sdp

  const BundleToken := "BUNDLE"

  // ---------------------------------------------------------------------------
  // is_bundle

  /** The text the named group `mids` captures: everything after the first "BUNDLE". */
  function MidsText(v: string): string
    requires Find(v, BundleToken).Some?
  {
    v[Find(v, BundleToken).value + |BundleToken|..]
  }

  /**
   * The loop of sdp_message_is_bundle over the `group` values: the first value
   * in which "BUNDLE" occurs decides, and it counts as bundled iff splitting
   * the captured mids on " " yields at least one token.
   */
  function GroupsBundle(groups: seq<string>): bool
  {
    if groups == [] then false
    else if Find(groups[0], BundleToken).Some? then |Split(MidsText(groups[0]), ' ', 0)| > 0
    else GroupsBundle(groups[1..])
  }

  function IsBundle(msg: Message): bool
  {
    GroupsBundle(Values(msg.attributes, GroupKey))
  }

  predicate FirstBundleGroupAt(groups: seq<string>, i: int)
  {
    && 0 <= i < |groups|
    && Find(groups[i], BundleToken).Some?
    && forall j :: 0 <= j < i ==> Find(groups[j], BundleToken).None?
  }

  lemma {:induction false} GroupsBundleIff(groups: seq<string>)
    ensures GroupsBundle(groups) <==>
      exists i :: FirstBundleGroupAt(groups, i) && MidsText(groups[i]) != ""
  {
    if groups == [] {
    } else if Find(groups[0], BundleToken).Some? {
      assert FirstBundleGroupAt(groups, 0);
      forall i | FirstBundleGroupAt(groups, i) ensures i == 0 {
      }
    } else {
      GroupsBundleIff(groups[1..]);
      if GroupsBundle(groups) {
        var i :| FirstBundleGroupAt(groups[1..], i) && MidsText(groups[1..][i]) != "";
        assert FirstBundleGroupAt(groups, i + 1);
      }
      if i :| FirstBundleGroupAt(groups, i) && MidsText(groups[i]) != "" {
        assert i != 0;
        assert FirstBundleGroupAt(groups[1..], i - 1);
      }
    }
  }

  /**
   * is_bundle holds iff the first `group` value mentioning BUNDLE has some text
   * after it; a bare "BUNDLE", or no such group, gives false.
   */
  lemma IsBundleIff(msg: Message)
    ensures IsBundle(msg) <==> exists i ::
      FirstBundleGroupAt(Values(msg.attributes, GroupKey), i)
      && MidsText(Values(msg.attributes, GroupKey)[i]) != ""
  {
    var groups := Values(msg.attributes, GroupKey);
    GroupsBundleIff(groups);
    if IsBundle(msg) {
      var i :| FirstBundleGroupAt(groups, i) && MidsText(groups[i]) != "";
      assert FirstBundleGroupAt(Values(msg.attributes, GroupKey), i);
    }
  }

  /** A lone group value "BUNDLE" + mids is read as bundled iff mids is not empty. */
  lemma GroupsBundleOfGroupValue(mids: string)
    ensures GroupsBundle([BundleToken + mids]) == (mids != "")
  {
    var v := BundleToken + mids;
    assert OccursAt(v, BundleToken, 0);
    assert Find(v, BundleToken) == Some(0);
    assert MidsText(v) == mids;
  }

  // ---------------------------------------------------------------------------
  // is_rtcp_mux

  /** The loop of sdp_message_is_rtcp_mux: the first media without rtcp-mux answers false. */
  function AllMux(medias: seq<Media>): bool
  {
    medias == [] || (HasAttribute(medias[0].attributes, RtcpMuxKey) && AllMux(medias[1..]))
  }

  function IsRtcpMux(msg: Message): bool
  {
    AllMux(msg.medias)
  }

  lemma {:induction false} AllMuxIff(medias: seq<Media>)
    ensures AllMux(medias) <==> forall i :: 0 <= i < |medias| ==> HasAttribute(medias[i].attributes, RtcpMuxKey)
  {
    if medias != [] {
      AllMuxIff(medias[1..]);
      assert forall i :: 1 <= i < |medias| ==> medias[i] == medias[1..][i - 1];
    }
  }

  /** rtcp-mux is agreed iff every media section carries it (vacuously for none). */
  lemma IsRtcpMuxIff(msg: Message)
    ensures IsRtcpMux(msg) <==>
      forall i :: 0 <= i < |msg.medias| ==> HasAttribute(msg.medias[i].attributes, RtcpMuxKey)
  {
    AllMuxIff(msg.medias);
  }

  // ---------------------------------------------------------------------------
  // rtcp-fb flags

  datatype FeedbackType = Fir | Nack | Pli | Remb

  /** RTCP_FB_FIR, RTCP_FB_NACK, RTCP_FB_PLI and RTCP_FB_REMB. */
  function FeedbackName(t: FeedbackType): string
  {
    match t
    case Fir => "ccm fir"
    case Nack => "nack"
    case Pli => "nack pli"
    case Remb => "goog-remb"
  }

  datatype FeedbackFlags = FeedbackFlags(fir: bool, nack: bool, pli: bool, remb: bool)
  {
    predicate Enabled(t: FeedbackType)
    {
      match t
      case Fir => fir
      case Nack => nack
      case Pli => pli
      case Remb => remb
    }
  }

  const NoFeedback := FeedbackFlags(false, false, false, false)

  /** The rtcp-fb value "<pt> <type>". */
  function FeedbackValue(pt: string, t: FeedbackType): string
  {
    pt + " " + FeedbackName(t)
  }

  /** rtcp_fb_attr_check_type: the attribute value is exactly "<pt> <type>". */
  predicate RtcpFbAttrCheckType(attr: string, pt: string, t: FeedbackType)
  {
    attr == FeedbackValue(pt, t)
  }

  /** Distinct (payload type, feedback type) pairs never produce the same rtcp-fb value. */
  lemma FeedbackValueInjective(pt1: string, t1: FeedbackType, pt2: string, t2: FeedbackType)
    requires FeedbackValue(pt1, t1) == FeedbackValue(pt2, t2)
    ensures pt1 == pt2 && t1 == t2
  {
    var a, b := FeedbackValue(pt1, t1), FeedbackValue(pt2, t2);
    var n1, n2 := FeedbackName(t1), FeedbackName(t2);
    assert a[|a| - 1] == n1[|n1| - 1];
    assert b[|b| - 1] == n2[|n2| - 1];
    assert t1 == t2;
    assert pt1 == a[..|pt1|];
    assert pt2 == b[..|pt2|];
  }

  predicate HasFeedback(values: seq<string>, pt: string, t: FeedbackType)
  {
    FeedbackValue(pt, t) in values
  }

  /** The four flags read from the rtcp-fb values of a media for payload type `pt`. */
  function FlagsFor(values: seq<string>, pt: string): FeedbackFlags
  {
    FeedbackFlags(HasFeedback(values, pt, Fir), HasFeedback(values, pt, Nack),
                  HasFeedback(values, pt, Pli), HasFeedback(values, pt, Remb))
  }

  /** One more rtcp-fb value switches on at most the one flag whose type it names. */
  lemma FlagsForSnoc(values: seq<string>, attr: string, pt: string)
    ensures FlagsFor(values + [attr], pt) ==
      if RtcpFbAttrCheckType(attr, pt, Fir) then FlagsFor(values, pt).(fir := true)
      else if RtcpFbAttrCheckType(attr, pt, Nack) then FlagsFor(values, pt).(nack := true)
      else if RtcpFbAttrCheckType(attr, pt, Pli) then FlagsFor(values, pt).(pli := true)
      else if RtcpFbAttrCheckType(attr, pt, Remb) then FlagsFor(values, pt).(remb := true)
      else FlagsFor(values, pt)
  {
    forall t1, t2 | RtcpFbAttrCheckType(attr, pt, t1) && RtcpFbAttrCheckType(attr, pt, t2)
      ensures t1 == t2
    {
      FeedbackValueInjective(pt, t1, pt, t2);
    }
  }

  /** The first format at or after position `f` whose encoding name passes the VP8 test. */
  function FirstVp8From(m: Media, f: nat): (r: Option<string>)
    requires f <= |m.formats|
    ensures r.Some? ==> r.value in m.formats[f..] && IsVp8Format(m, r.value)
    ensures r.None? ==> forall j :: f <= j < |m.formats| ==> !IsVp8Format(m, m.formats[j])
    decreases |m.formats| - f
  {
    if f == |m.formats| then None
    else if IsVp8Format(m, m.formats[f]) then Some(m.formats[f])
    else FirstVp8From(m, f + 1)
  }

  function FirstVp8Format(m: Media): Option<string>
  {
    FirstVp8From(m, 0)
  }

  /**
   * What sdp_message_get_vp8_rtcp_fb_attrs reads from an offer: all false,
   * unless some video media has a VP8 format; then the first such media and
   * its first VP8 payload type decide each flag.
   */
  function Vp8FeedbackFlags(medias: seq<Media>): FeedbackFlags
  {
    if medias == [] then NoFeedback
    else if medias[0].media == VideoKind && FirstVp8Format(medias[0]).Some? then
      FlagsFor(Values(medias[0].attributes, RtcpFbKey), FirstVp8Format(medias[0]).value)
    else Vp8FeedbackFlags(medias[1..])
  }

  predicate HasVp8Video(medias: seq<Media>)
  {
    exists i :: 0 <= i < |medias| && medias[i].media == VideoKind && FirstVp8Format(medias[i]).Some?
  }

  lemma {:induction false} Vp8FeedbackFlagsWithoutVp8Video(medias: seq<Media>)
    requires !HasVp8Video(medias)
    ensures Vp8FeedbackFlags(medias) == NoFeedback
  {
    if medias != [] {
      forall i | 0 <= i < |medias| - 1
        ensures !(medias[1..][i].media == VideoKind && FirstVp8Format(medias[1..][i]).Some?)
      {
        assert medias[1..][i] == medias[i + 1];
      }
      Vp8FeedbackFlagsWithoutVp8Video(medias[1..]);
    }
  }

  /** The innermost loop of sdp_message_get_vp8_rtcp_fb_attrs: the rtcp-fb values of one payload type. */
  method ScanFeedback(values: seq<string>, pt: string) returns (fir: bool, nack: bool, pli: bool, remb: bool)
    ensures FeedbackFlags(fir, nack, pli, remb) == FlagsFor(values, pt)
  {
    fir, nack, pli, remb := false, false, false, false;
    var a := 0;
    while a < |values|
      invariant 0 <= a <= |values|
      invariant FeedbackFlags(fir, nack, pli, remb) == FlagsFor(values[..a], pt)
    {
      var attr := values[a];
      assert values[..a + 1] == values[..a] + [attr];
      FlagsForSnoc(values[..a], attr, pt);
      if RtcpFbAttrCheckType(attr, pt, Fir) {
        fir := true;
        a := a + 1;
        continue;
      }
      if RtcpFbAttrCheckType(attr, pt, Nack) {
        nack := true;
        a := a + 1;
        continue;
      }
      if RtcpFbAttrCheckType(attr, pt, Pli) {
        pli := true;
        a := a + 1;
        continue;
      }
      if RtcpFbAttrCheckType(attr, pt, Remb) {
        remb := true;
        a := a + 1;
        continue;
      }
      a := a + 1;
    }
    assert values[..a] == values;
  }

  /** sdp_message_get_vp8_rtcp_fb_attrs: nested scans with early exit, writing four out-flags. */
  method GetVp8RtcpFbAttrs(msg: Message) returns (fir: bool, nack: bool, pli: bool, remb: bool)
    ensures FeedbackFlags(fir, nack, pli, remb) == Vp8FeedbackFlags(msg.medias)
  {
    fir, nack, pli, remb := false, false, false, false;
    var m := 0;
    while m < |msg.medias|
      invariant 0 <= m <= |msg.medias|
      invariant Vp8FeedbackFlags(msg.medias) == Vp8FeedbackFlags(msg.medias[m..])
      invariant !fir && !nack && !pli && !remb
    {
      var media := msg.medias[m];
      assert msg.medias[m..][1..] == msg.medias[m + 1..];
      if media.media != VideoKind {
        m := m + 1;
        continue;
      }
      var f := 0;
      while f < |media.formats|
        invariant 0 <= f <= |media.formats|
        invariant FirstVp8Format(media) == FirstVp8From(media, f)
        invariant !fir && !nack && !pli && !remb
      {
        var pt := media.formats[f];
        if !IsVp8Format(media, pt) {
          f := f + 1;
          continue;
        }
        fir, nack, pli, remb := ScanFeedback(Values(media.attributes, RtcpFbKey), pt);
        assert FirstVp8From(media, f) == Some(pt);
        assert msg.medias[m..][0] == media;
        return;
      }
      m := m + 1;
    }
  }

  // ---------------------------------------------------------------------------
  // Writing rtcp-fb lines (kms_base_rtp_endpoint_media_set_rtcp_fb_attrs)

  /** The rtcp-fb values written for one VP8 payload type, in the order fir, nack, pli, remb. */
  function EnabledValues(pt: string, fb: FeedbackFlags): seq<string>
  {
    (if fb.fir then [FeedbackValue(pt, Fir)] else [])
    + (if fb.nack then [FeedbackValue(pt, Nack)] else [])
    + (if fb.pli then [FeedbackValue(pt, Pli)] else [])
    + (if fb.remb then [FeedbackValue(pt, Remb)] else [])
  }

  /** rtcp-fb attributes carrying the values `vs`, in order. */
  function FeedbackAttributes(vs: seq<string>): (r: seq<Attribute>)
    ensures |r| == |vs|
    ensures forall i :: 0 <= i < |r| ==> r[i].key == RtcpFbKey
  {
    seq(|vs|, i requires 0 <= i < |vs| => Attribute(RtcpFbKey, vs[i]))
  }

  lemma {:induction false} ValuesOfFeedbackAttributes(vs: seq<string>)
    ensures Values(FeedbackAttributes(vs), RtcpFbKey) == vs
  {
    if vs != [] {
      assert FeedbackAttributes(vs)[1..] == FeedbackAttributes(vs[1..]);
      ValuesOfFeedbackAttributes(vs[1..]);
    }
  }

  function FeedbackLinesFor(pt: string, fb: FeedbackFlags): (r: seq<Attribute>)
    ensures forall i :: 0 <= i < |r| ==> r[i].key == RtcpFbKey
  {
    FeedbackAttributes(EnabledValues(pt, fb))
  }

  /** The lines written for the formats `fs` of media `m`, format by format. */
  function FeedbackLines(m: Media, fs: seq<string>, fb: FeedbackFlags): (r: seq<Attribute>)
    ensures forall i :: 0 <= i < |r| ==> r[i].key == RtcpFbKey
  {
    if fs == [] then []
    else
      var last := fs[|fs| - 1];
      FeedbackLines(m, fs[..|fs| - 1], fb) + (if IsVp8Format(m, last) then FeedbackLinesFor(last, fb) else [])
  }

  /** One more format adds its own lines at the end. */
  lemma FeedbackLinesSnoc(m: Media, fs: seq<string>, f: string, fb: FeedbackFlags)
    ensures FeedbackLines(m, fs + [f], fb) ==
      FeedbackLines(m, fs, fb) + (if IsVp8Format(m, f) then FeedbackLinesFor(f, fb) else [])
  {
    assert (fs + [f])[..|fs|] == fs;
  }

  /**
   * One step of media_set_rtcp_fb_attrs: the encoding name of the next format
   * is read from the media as rewritten so far, and is the one it had before.
   */
  lemma FeedbackLinesStep(m: Media, i: nat, fb: FeedbackFlags)
    requires i < |m.formats|
    ensures var sofar := m.(attributes := m.attributes + FeedbackLines(m, m.formats[..i], fb));
      FeedbackLines(m, m.formats[..i + 1], fb) == FeedbackLines(m, m.formats[..i], fb)
        + (if IsVp8Name(EncodingName(sofar, m.formats[i])) then FeedbackLinesFor(m.formats[i], fb) else [])
  {
    FeedbackLinesSnoc(m, m.formats[..i], m.formats[i], fb);
    assert m.formats[..i + 1] == m.formats[..i] + [m.formats[i]];
    EncodingNameAfterAppend(m, FeedbackLines(m, m.formats[..i], fb), m.formats[i]);
  }

  /** A media after media_set_rtcp_fb_attrs: only video media gain lines. */
  function WithFeedback(m: Media, fb: FeedbackFlags): Media
  {
    if m.media != VideoKind then m
    else m.(attributes := m.attributes + FeedbackLines(m, m.formats, fb))
  }

  lemma FeedbackLinesForValues(pt: string, fb: FeedbackFlags, v: string)
    ensures v in Values(FeedbackLinesFor(pt, fb), RtcpFbKey) <==>
      exists t: FeedbackType :: fb.Enabled(t) && v == FeedbackValue(pt, t)
  {
    ValuesOfFeedbackAttributes(EnabledValues(pt, fb));
    if v in EnabledValues(pt, fb) {
      if fb.fir && v == FeedbackValue(pt, Fir) {
        assert fb.Enabled(Fir);
      } else if fb.nack && v == FeedbackValue(pt, Nack) {
        assert fb.Enabled(Nack);
      } else if fb.pli && v == FeedbackValue(pt, Pli) {
        assert fb.Enabled(Pli);
      } else {
        assert fb.Enabled(Remb);
      }
    }
  }

  /** The lines of format `f` carry "<pt> <type>" iff `f` is `pt`, passes the VP8 test and `type` is enabled. */
  lemma FormatLinesMembership(m: Media, f: string, fb: FeedbackFlags, pt: string, t: FeedbackType)
    ensures var lines := if IsVp8Format(m, f) then FeedbackLinesFor(f, fb) else [];
      FeedbackValue(pt, t) in Values(lines, RtcpFbKey) <==> f == pt && IsVp8Format(m, f) && fb.Enabled(t)
  {
    var v := FeedbackValue(pt, t);
    if IsVp8Format(m, f) {
      FeedbackLinesForValues(f, fb, v);
      if v in Values(FeedbackLinesFor(f, fb), RtcpFbKey) {
        var t' :| fb.Enabled(t') && v == FeedbackValue(f, t');
        FeedbackValueInjective(pt, t, f, t');
      }
    }
  }

  /**
   * The value "<pt> <type>" is among the written lines iff `pt` is one of the
   * formats, passes the VP8 test, and `type` is enabled.
   */
  lemma {:induction false} FeedbackLinesMembership(m: Media, fs: seq<string>, fb: FeedbackFlags, pt: string, t: FeedbackType)
    ensures HasFeedback(Values(FeedbackLines(m, fs, fb), RtcpFbKey), pt, t) <==>
      pt in fs && IsVp8Format(m, pt) && fb.Enabled(t)
  {
    if fs != [] {
      var init, last := fs[..|fs| - 1], fs[|fs| - 1];
      var tail := if IsVp8Format(m, last) then FeedbackLinesFor(last, fb) else [];
      assert fs == init + [last];
      assert pt in fs <==> pt in init || pt == last;
      ValuesAppend(FeedbackLines(m, init, fb), tail, RtcpFbKey);
      FeedbackLinesMembership(m, init, fb, pt, t);
      FormatLinesMembership(m, last, fb, pt, t);
    }
  }

  /** A media section without rtcp-fb lines reads back exactly the flags written into it. */
  lemma FeedbackRoundTrip(m: Media, fb: FeedbackFlags)
    requires m.media == VideoKind && FirstVp8Format(m).Some?
    requires Values(m.attributes, RtcpFbKey) == []
    ensures FirstVp8Format(WithFeedback(m, fb)) == FirstVp8Format(m)
    ensures FlagsFor(Values(WithFeedback(m, fb).attributes, RtcpFbKey), FirstVp8Format(m).value) == fb
  {
    var lines := FeedbackLines(m, m.formats, fb);
    var pt := FirstVp8Format(m).value;
    FirstVp8AfterAppend(m, lines);
    ValuesAppend(m.attributes, lines, RtcpFbKey);
    FeedbackLinesMembership(m, m.formats, fb, pt, Fir);
    FeedbackLinesMembership(m, m.formats, fb, pt, Nack);
    FeedbackLinesMembership(m, m.formats, fb, pt, Pli);
    FeedbackLinesMembership(m, m.formats, fb, pt, Remb);
  }

  lemma {:induction false} FirstVp8FromAfterAppend(m: Media, extra: seq<Attribute>, f: nat)
    requires forall i :: 0 <= i < |extra| ==> extra[i].key != RtpmapKey
    requires f <= |m.formats|
    ensures FirstVp8From(m.(attributes := m.attributes + extra), f) == FirstVp8From(m, f)
    decreases |m.formats| - f
  {
    if f < |m.formats| {
      EncodingNameAfterAppend(m, extra, m.formats[f]);
      FirstVp8FromAfterAppend(m, extra, f + 1);
    }
  }

  /** Appending non-rtpmap attributes keeps the first VP8 payload type. */
  lemma FirstVp8AfterAppend(m: Media, extra: seq<Attribute>)
    requires forall i :: 0 <= i < |extra| ==> extra[i].key != RtpmapKey
    ensures FirstVp8Format(m.(attributes := m.attributes + extra)) == FirstVp8Format(m)
  {
    FirstVp8FromAfterAppend(m, extra, 0);
  }

  // ---------------------------------------------------------------------------
  // kms_base_rtp_endpoint_update_sdp_media

  const AudioSession: nat := 0
  const VideoSession: nat := 1

  /** The RTP session a media kind is sent on; other kinds are not supported. */
  function SessionOf(kind: string): (r: Option<nat>)
    ensures r == Some(AudioSession) <==> kind == AudioKind
    ensures r == Some(VideoSession) <==> kind == VideoKind
    ensures r.None? <==> kind != AudioKind && kind != VideoKind
  {
    if kind == AudioKind then Some(AudioSession)
    else if kind == VideoKind then Some(VideoSession)
    else None
  }

  /**
   * update_sdp_media succeeds on `m` iff its kind is audio or video and rtpbin
   * yields that RTP session; `sessions` maps each session it yields to the
   * session's internal SSRC.
   */
  predicate Rewritable(m: Media, sessions: map<nat, uint32>)
  {
    SessionOf(m.media).Some? && SessionOf(m.media).value in sessions
  }

  function SessionSsrc(m: Media, sessions: map<nat, uint32>): uint32
    requires Rewritable(m, sessions)
  {
    sessions[SessionOf(m.media).value]
  }

  /** What the endpoint writes into each media: protocol, rtcp-mux choice, feedback flags, CNAME, address family. */
  datatype Transport = Transport(proto: Option<string>, mux: bool, fb: FeedbackFlags, cname: string, ipv6: bool)

  function AddrType(ipv6: bool): string
  {
    if ipv6 then "IP6" else "IP4"
  }

  const AnyAddress := "0.0.0.0"
  const TransportPort: nat := 1

  function PlaceholderConnection(ipv6: bool): Connection
  {
    Connection("IN", AddrType(ipv6), AnyAddress, 0, 0)
  }

  /** The `rtcp` value "1 IN <addrtype> 0.0.0.0". */
  function RtcpValue(ipv6: bool): string
  {
    NatToString(TransportPort) + " IN " + AddrType(ipv6) + " " + AnyAddress
  }

  /** The `ssrc` value "<ssrc> cname:<cname>". */
  function SsrcValue(ssrc: uint32, cname: string): string
  {
    NatToString(ssrc) + " cname:" + cname
  }

  /** The SSRC announced in an `ssrc` value reads back with atoi. */
  lemma SsrcValueReadsBack(ssrc: uint32, cname: string)
    ensures Atoi(SsrcValue(ssrc, cname)) == ssrc
  {
    assert SsrcValue(ssrc, cname) == NatToString(ssrc) + (" cname:" + cname);
    AtoiOfNatToString(ssrc, " cname:" + cname);
  }

  /** The attributes update_sdp_media appends before the feedback lines. */
  function TransportAttributes(tp: Transport, ssrc: uint32): (r: seq<Attribute>)
    ensures forall i :: 0 <= i < |r| ==> r[i].key !in {RtpmapKey, RtcpFbKey, GroupKey}
  {
    [Attribute(RtcpKey, RtcpValue(tp.ipv6))]
    + (if tp.mux then [Attribute(RtcpMuxKey, "")] else [])
    + [Attribute(SsrcKey, SsrcValue(ssrc, tp.cname))]
  }

  /**
   * The effect of gst_sdp_media_remove_connection (media, c) for c = 0, 1, ...
   * below the original count: each removal shifts the rest down and indices
   * past the end are refused, so the connections at odd positions remain.
   */
  function OddPositions(cs: seq<Connection>): (r: seq<Connection>)
    ensures |r| == |cs| / 2
  {
    seq(|cs| / 2, i requires 0 <= i < |cs| / 2 => cs[2 * i + 1])
  }

  lemma OddPositionsOfPrefix(cs: seq<Connection>, j: nat)
    requires j <= |cs|
    ensures forall i :: 0 <= i < j / 2 ==> OddPositions(cs[..j])[i] == cs[2 * i + 1]
  {
  }

  /** Removing index c once the first c odd-position connections are in place keeps the next one. */
  lemma RemovalStep(cs: seq<Connection>, c: nat)
    requires 2 * c < |cs|
    ensures var r := OddPositions(cs[..2 * c]) + cs[2 * c..];
      && c < |r| && r[c] == cs[2 * c]
      && r[..c] + r[c + 1..] ==
        if 2 * c + 2 <= |cs| then OddPositions(cs[..2 * c + 2]) + cs[2 * c + 2..] else OddPositions(cs)
  {
    var r := OddPositions(cs[..2 * c]) + cs[2 * c..];
    var r' := r[..c] + r[c + 1..];
    OddPositionsOfPrefix(cs, 2 * c);
    if 2 * c + 2 <= |cs| {
      var e := OddPositions(cs[..2 * c + 2]) + cs[2 * c + 2..];
      OddPositionsOfPrefix(cs, 2 * c + 2);
      assert |r'| == |e|;
      forall i | 0 <= i < |e| ensures r'[i] == e[i] {
        if i < c {
        } else if i == c {
        } else {
        }
      }
    } else {
      assert |r'| == |OddPositions(cs)|;
      forall i | 0 <= i < |r'| ensures r'[i] == OddPositions(cs)[i] {
      }
    }
  }

  /** The removal loop of update_sdp_media, one index at a time. */
  method RemoveConnections(cs: seq<Connection>) returns (r: seq<Connection>)
    ensures r == OddPositions(cs)
  {
    r := cs;
    var c := 0;
    assert cs[..0] == [] && cs[0..] == cs;
    while c < |cs|
      invariant 0 <= c <= |cs|
      invariant 2 * c <= |cs| ==> r == OddPositions(cs[..2 * c]) + cs[2 * c..]
      invariant 2 * c > |cs| ==> r == OddPositions(cs)
    {
      if 2 * c < |cs| {
        RemovalStep(cs, c);
      } else if 2 * c == |cs| {
        assert cs[..2 * c] == cs;
      }
      if c < |r| {
        r := r[..c] + r[c + 1..];
      }
      c := c + 1;
    }
    if 2 * c <= |cs| {
      assert cs[..2 * c] == cs;
    }
  }

  /** The media update_sdp_media leaves behind when it succeeds. */
  function RewrittenMedia(m: Media, tp: Transport, ssrc: uint32): Media
  {
    WithFeedback(TransportedMedia(m, tp, ssrc), tp.fb)
  }

  /** The media section update_sdp_media builds before media_set_rtcp_fb_attrs. */
  function TransportedMedia(m: Media, tp: Transport, ssrc: uint32): Media
  {
    m.(proto := tp.proto, port := TransportPort,
       connections := OddPositions(m.connections) + [PlaceholderConnection(tp.ipv6)],
       attributes := m.attributes + TransportAttributes(tp, ssrc))
  }

  lemma TransportAttributeValues(tp: Transport, ssrc: uint32)
    ensures Values(TransportAttributes(tp, ssrc), RtcpKey) == [RtcpValue(tp.ipv6)]
    ensures Values(TransportAttributes(tp, ssrc), RtcpMuxKey) == if tp.mux then [""] else []
    ensures Values(TransportAttributes(tp, ssrc), SsrcKey) == [SsrcValue(ssrc, tp.cname)]
  {
    var a := [Attribute(RtcpKey, RtcpValue(tp.ipv6))];
    var b := if tp.mux then [Attribute(RtcpMuxKey, "")] else [];
    var c := [Attribute(SsrcKey, SsrcValue(ssrc, tp.cname))];
    ValuesAppend(a + b, c, RtcpKey);
    ValuesAppend(a, b, RtcpKey);
    ValuesAppend(a + b, c, RtcpMuxKey);
    ValuesAppend(a, b, RtcpMuxKey);
    ValuesAppend(a + b, c, SsrcKey);
    ValuesAppend(a, b, SsrcKey);
  }

  /** Outside rtcp-fb, a rewritten media's attribute values are the original ones followed by the transport's. */
  lemma RewrittenValues(m: Media, tp: Transport, ssrc: uint32, key: string)
    requires key != RtcpFbKey
    ensures Values(RewrittenMedia(m, tp, ssrc).attributes, key)
      == Values(m.attributes, key) + Values(TransportAttributes(tp, ssrc), key)
  {
    var base := TransportedMedia(m, tp, ssrc);
    var lines := if m.media == VideoKind then FeedbackLines(base, base.formats, tp.fb) else [];
    assert RewrittenMedia(m, tp, ssrc).attributes == base.attributes + lines;
    ValuesAppendOther(base.attributes, lines, key);
    ValuesAppend(m.attributes, TransportAttributes(tp, ssrc), key);
  }

  /** A rewritten media keeps its first VP8 payload type. */
  lemma RewrittenFirstVp8(m: Media, tp: Transport, ssrc: uint32)
    ensures FirstVp8Format(TransportedMedia(m, tp, ssrc)) == FirstVp8Format(m)
    ensures FirstVp8Format(RewrittenMedia(m, tp, ssrc)) == FirstVp8Format(m)
  {
    var extra := TransportAttributes(tp, ssrc);
    var base := TransportedMedia(m, tp, ssrc);
    FirstVp8AfterAppend(m, extra);
    SameFirstVp8(base, m.(attributes := m.attributes + extra));
    if m.media == VideoKind {
      var lines := FeedbackLines(base, base.formats, tp.fb);
      FirstVp8AfterAppend(base, lines);
    }
  }

  /** What a rewritten media keeps and gains, as a peer reading it back sees it. */
  lemma RewrittenMediaFacts(m: Media, tp: Transport, ssrc: uint32)
    ensures var r := RewrittenMedia(m, tp, ssrc);
      && r.media == m.media && r.formats == m.formats
      && r.proto == tp.proto && r.port == TransportPort
      && r.connections == OddPositions(m.connections) + [PlaceholderConnection(tp.ipv6)]
      && FirstVp8Format(r) == FirstVp8Format(m)
      && HasAttribute(r.attributes, RtcpMuxKey) == (HasAttribute(m.attributes, RtcpMuxKey) || tp.mux)
      && Values(r.attributes, RtcpKey) == Values(m.attributes, RtcpKey) + [RtcpValue(tp.ipv6)]
      && Values(r.attributes, SsrcKey) == Values(m.attributes, SsrcKey) + [SsrcValue(ssrc, tp.cname)]
  {
    TransportAttributeValues(tp, ssrc);
    RewrittenValues(m, tp, ssrc, RtcpMuxKey);
    RewrittenValues(m, tp, ssrc, RtcpKey);
    RewrittenValues(m, tp, ssrc, SsrcKey);
    RewrittenFirstVp8(m, tp, ssrc);
  }

  /** The first VP8 payload type depends only on formats and attributes. */
  lemma SameFirstVp8(m1: Media, m2: Media)
    requires m1.formats == m2.formats && m1.attributes == m2.attributes
    ensures FirstVp8Format(m1) == FirstVp8Format(m2)
  {
    SameFirstVp8From(m1, m2, 0);
  }

  lemma {:induction false} SameFirstVp8From(m1: Media, m2: Media, f: nat)
    requires m1.formats == m2.formats && m1.attributes == m2.attributes
    requires f <= |m1.formats|
    ensures FirstVp8From(m1, f) == FirstVp8From(m2, f)
    decreases |m1.formats| - f
  {
    if f < |m1.formats| {
      assert EncodingName(m1, m1.formats[f]) == EncodingName(m2, m2.formats[f]);
      SameFirstVp8From(m1, m2, f + 1);
    }
  }

  /** A VP8 video media without feedback lines answers with exactly the endpoint's flags. */
  lemma RewrittenFeedbackRoundTrip(m: Media, tp: Transport, ssrc: uint32)
    requires m.media == VideoKind && FirstVp8Format(m).Some?
    requires Values(m.attributes, RtcpFbKey) == []
    ensures FirstVp8Format(RewrittenMedia(m, tp, ssrc)) == FirstVp8Format(m)
    ensures FlagsFor(Values(RewrittenMedia(m, tp, ssrc).attributes, RtcpFbKey), FirstVp8Format(m).value) == tp.fb
  {
    var base := TransportedMedia(m, tp, ssrc);
    RewrittenFirstVp8(m, tp, ssrc);
    ValuesAppendOther(m.attributes, TransportAttributes(tp, ssrc), RtcpFbKey);
    FeedbackRoundTrip(base, tp.fb);
  }

  // ---------------------------------------------------------------------------
  // kms_base_rtp_endpoint_set_transport_to_sdp

  /** The media kinds, each preceded by a space: what follows "BUNDLE" in the group value. */
  function MidList(medias: seq<Media>): (mids: string)
    ensures mids == "" <==> medias == []
  {
    if medias == [] then ""
    else MidList(medias[..|medias| - 1]) + " " + medias[|medias| - 1].media
  }

  predicate AllRewritable(medias: seq<Media>, sessions: map<nat, uint32>)
  {
    forall i :: 0 <= i < |medias| ==> Rewritable(medias[i], sessions)
  }

  function RewriteAll(medias: seq<Media>, tp: Transport, sessions: map<nat, uint32>): (r: seq<Media>)
    requires AllRewritable(medias, sessions)
    ensures |r| == |medias|
  {
    seq(|medias|, i requires 0 <= i < |medias| => RewrittenMedia(medias[i], tp, SessionSsrc(medias[i], sessions)))
  }

  /** The local description after a successful set_transport_to_sdp. */
  function NegotiatedMessage(msg: Message, bundle: bool, tp: Transport, sessions: map<nat, uint32>): Message
    requires AllRewritable(msg.medias, sessions)
  {
    Message(
      if bundle then msg.attributes + [Attribute(GroupKey, BundleToken + MidList(msg.medias))] else msg.attributes,
      RewriteAll(msg.medias, tp, sessions))
  }

  /** Where set_transport_to_sdp gives up on media `m`: unsupported kind or session, or no connection. */
  predicate MediaFails(m: Media, bundle: bool, sessions: map<nat, uint32>, rtpNames: set<string>)
  {
    !Rewritable(m, sessions) || (!bundle && m.media !in rtpNames)
  }

  /** The index of the first media that makes set_transport_to_sdp fail, |medias| when none does. */
  function FirstFailure(medias: seq<Media>, bundle: bool, sessions: map<nat, uint32>, rtpNames: set<string>, from: nat): (k: nat)
    requires from <= |medias|
    ensures from <= k <= |medias|
    ensures forall i :: from <= i < k ==> !MediaFails(medias[i], bundle, sessions, rtpNames)
    ensures k < |medias| ==> MediaFails(medias[k], bundle, sessions, rtpNames)
    decreases |medias| - from
  {
    if from == |medias| || MediaFails(medias[from], bundle, sessions, rtpNames) then from
    else FirstFailure(medias, bundle, sessions, rtpNames, from + 1)
  }

  /**
   * How many medias the failed call has rewritten: those before the failing
   * one, plus the failing one when only its connection was missing.
   */
  function Progress(medias: seq<Media>, bundle: bool, sessions: map<nat, uint32>, rtpNames: set<string>): (n: nat)
    ensures n <= |medias|
    ensures AllRewritable(medias[..n], sessions)
  {
    var k := FirstFailure(medias, bundle, sessions, rtpNames, 0);
    if k < |medias| && Rewritable(medias[k], sessions) then k + 1 else k
  }

  lemma RewriteAllCons(medias: seq<Media>, tp: Transport, sessions: map<nat, uint32>)
    requires AllRewritable(medias, sessions) && medias != []
    ensures AllRewritable(medias[1..], sessions)
    ensures RewriteAll(medias, tp, sessions)[0] == RewrittenMedia(medias[0], tp, SessionSsrc(medias[0], sessions))
    ensures RewriteAll(medias, tp, sessions)[1..] == RewriteAll(medias[1..], tp, sessions)
  {
    assert forall i :: 0 <= i < |medias| - 1 ==> medias[1..][i] == medias[i + 1];
  }

  lemma {:induction false} AllMuxOfRewriteAll(medias: seq<Media>, tp: Transport, sessions: map<nat, uint32>)
    requires AllRewritable(medias, sessions)
    ensures AllMux(RewriteAll(medias, tp, sessions)) == (tp.mux || AllMux(medias))
    decreases |medias|
  {
    if medias != [] {
      var ssrc := SessionSsrc(medias[0], sessions);
      TransportAttributeValues(tp, ssrc);
      RewrittenValues(medias[0], tp, ssrc, RtcpMuxKey);
      RewriteAllCons(medias, tp, sessions);
      AllMuxOfRewriteAll(medias[1..], tp, sessions);
    }
  }

  lemma {:induction false} Vp8FeedbackOfRewriteAll(medias: seq<Media>, tp: Transport, sessions: map<nat, uint32>)
    requires AllRewritable(medias, sessions)
    requires forall i :: 0 <= i < |medias| ==> Values(medias[i].attributes, RtcpFbKey) == []
    ensures Vp8FeedbackFlags(RewriteAll(medias, tp, sessions)) == if HasVp8Video(medias) then tp.fb else NoFeedback
    decreases |medias|
  {
    if medias == [] {
    } else {
      var m := medias[0];
      var r := RewriteAll(medias, tp, sessions);
      var ssrc := SessionSsrc(m, sessions);
      RewrittenMediaFacts(m, tp, ssrc);
      RewriteAllCons(medias, tp, sessions);
      if m.media == VideoKind && FirstVp8Format(m).Some? {
        RewrittenFeedbackRoundTrip(m, tp, ssrc);
        assert HasVp8Video(medias) by {
          assert medias[0].media == VideoKind && FirstVp8Format(medias[0]).Some?;
        }
      } else {
        Vp8FeedbackOfRewriteAll(medias[1..], tp, sessions);
        assert HasVp8Video(medias) == HasVp8Video(medias[1..]) by {
          if HasVp8Video(medias) {
            var i :| 0 <= i < |medias| && medias[i].media == VideoKind && FirstVp8Format(medias[i]).Some?;
            assert i != 0;
            assert medias[1..][i - 1] == medias[i];
          }
          if HasVp8Video(medias[1..]) {
            var i :| 0 <= i < |medias[1..]| && medias[1..][i].media == VideoKind && FirstVp8Format(medias[1..][i]).Some?;
            assert medias[i + 1] == medias[1..][i];
          }
        }
      }
    }
  }

  /**
   * A peer reading the negotiated description back derives the endpoint's
   * choices: BUNDLE iff bundling was on and there was some media, rtcp-mux iff
   * the endpoint muxes or every media already had it, and the endpoint's
   * feedback flags iff some video media offers VP8.
   */
  lemma NegotiationRoundTrip(msg: Message, bundle: bool, tp: Transport, sessions: map<nat, uint32>)
    requires AllRewritable(msg.medias, sessions)
    requires Values(msg.attributes, GroupKey) == []
    requires forall i :: 0 <= i < |msg.medias| ==> Values(msg.medias[i].attributes, RtcpFbKey) == []
    ensures var out := NegotiatedMessage(msg, bundle, tp, sessions);
      && IsBundle(out) == (bundle && |msg.medias| > 0)
      && IsRtcpMux(out) == (tp.mux || IsRtcpMux(msg))
      && Vp8FeedbackFlags(out.medias) == if HasVp8Video(msg.medias) then tp.fb else NoFeedback
  {
    var out := NegotiatedMessage(msg, bundle, tp, sessions);
    var mids := MidList(msg.medias);
    if bundle {
      ValuesAppend(msg.attributes, [Attribute(GroupKey, BundleToken + mids)], GroupKey);
      assert Values(out.attributes, GroupKey) == [BundleToken + mids];
      GroupsBundleOfGroupValue(mids);
    }
    AllMuxOfRewriteAll(msg.medias, tp, sessions);
    Vp8FeedbackOfRewriteAll(msg.medias, tp, sessions);
  }

  /** set_transport_to_sdp gets through every media section. */
  predicate Succeeds(medias: seq<Media>, bundle: bool, sessions: map<nat, uint32>, rtpNames: set<string>)
  {
    FirstFailure(medias, bundle, sessions, rtpNames, 0) == |medias|
  }

  /**
   * local_audio_ssrc or local_video_ssrc after rewriting `medias`: the
   * internal SSRC of the kind's session when some media of that kind was
   * rewritten, `current` otherwise.
   */
  function AnnouncedSsrc(medias: seq<Media>, kind: string, sessions: map<nat, uint32>, current: uint32): (r: uint32)
    requires AllRewritable(medias, sessions)
    ensures !HasKind(medias, kind) ==> r == current
    ensures HasKind(medias, kind) ==> SessionOf(kind).Some? && r == sessions[SessionOf(kind).value]
  {
    if medias == [] then current
    else
      var init, last := medias[..|medias| - 1], medias[|medias| - 1];
      assert forall i :: 0 <= i < |init| ==> init[i] == medias[i];
      if last.media == kind then SessionSsrc(last, sessions)
      else AnnouncedSsrc(init, kind, sessions, current)
  }

  /** The rtcp-fb line of type `t` for payload type `pt` when `on`, nothing otherwise. */
  function FeedbackLine(pt: string, t: FeedbackType, on: bool): seq<Attribute>
  {
    if on then [Attribute(RtcpFbKey, FeedbackValue(pt, t))] else []
  }

  /** The rtcp-fb lines for one payload type as media_set_rtcp_fb_attrs appends them, flag by flag. */
  lemma FeedbackLinesForUnfold(pt: string, fb: FeedbackFlags)
    ensures FeedbackLinesFor(pt, fb) ==
      FeedbackLine(pt, Fir, fb.fir) + FeedbackLine(pt, Nack, fb.nack)
      + FeedbackLine(pt, Pli, fb.pli) + FeedbackLine(pt, Remb, fb.remb)
  {
  }

  /** Rewriting one more media section extends the rewritten prefix. */
  lemma RewriteAllSnoc(medias: seq<Media>, i: nat, tp: Transport, sessions: map<nat, uint32>)
    requires i < |medias|
    requires AllRewritable(medias[..i + 1], sessions)
    ensures AllRewritable(medias[..i], sessions)
    ensures Rewritable(medias[i], sessions)
    ensures (RewriteAll(medias[..i], tp, sessions) + medias[i..])[i := RewrittenMedia(medias[i], tp, SessionSsrc(medias[i], sessions))]
      == RewriteAll(medias[..i + 1], tp, sessions) + medias[i + 1..]
  {
    assert medias[..i + 1][i] == medias[i];
    assert forall j :: 0 <= j < i ==> medias[..i + 1][j] == medias[..i][j];
  }
}
