/**
 * Payload-format parsing of the base RTP endpoint: the `rtpmap` value
 * "<encoding>/<clock-rate>[/<parameters>]" of RFC 4566 section 6 turned into
 * RTP caps, and the caps rtpbin asks for when a payload type shows up.
 */
module Formats {
  import opened Text
  import opened Sdp

  const OpusCapsName := "X-GST-OPUS-DRAFT-SPITTKA-00"
  const Vp8CapsName := "VP8-DRAFT-IETF-01"

  /**
   * The fields of an "application/x-rtp" caps structure; the two rtcp-fb
   * fields are present only on video caps.
   */
  datatype Caps = Caps(
    media: string,
    payload: int,
    clockRate: int,
    encodingName: string,
    ccmFir: Option<bool>,
    nackPli: Option<bool>)

  /** get_caps_codec_name: GStreamer's names for OPUS and VP8; anything else passes through. */
  function GetCapsCodecName(codecName: string): (r: string)
    ensures r != codecName <==>
      (EqualsIgnoreCase(OpusEncodingName, codecName) || EqualsIgnoreCase(Vp8EncodingName, codecName))
    ensures EqualsIgnoreCase(OpusEncodingName, codecName) ==> r == OpusCapsName
    ensures !EqualsIgnoreCase(OpusEncodingName, codecName) && EqualsIgnoreCase(Vp8EncodingName, codecName) ==>
      r == Vp8CapsName
  {
    if EqualsIgnoreCase(OpusEncodingName, codecName) then OpusCapsName
    else if EqualsIgnoreCase(Vp8EncodingName, codecName) then Vp8CapsName
    else codecName
  }

  /** Mapping a name that is already a GStreamer name changes nothing. */
  lemma GetCapsCodecNameIdempotent(codecName: string)
    ensures GetCapsCodecName(GetCapsCodecName(codecName)) == GetCapsCodecName(codecName)
  {
    var r := GetCapsCodecName(codecName);
    if r == OpusCapsName || r == Vp8CapsName {
      assert |r| != |OpusEncodingName| && |r| != |Vp8EncodingName|;
    }
  }

  /**
   * kms_base_rtp_endpoint_get_caps_from_rtpmap: no caps for a missing rtpmap
   * or one without a second "/"-token; otherwise payload atoi (pt), clock-rate
   * atoi of the second token and the encoding name mapped by GetCapsCodecName.
   */
  function GetCapsFromRtpmap(media: string, pt: string, rtpmap: Option<string>): (r: Option<Caps>)
    ensures r.Some? <==> rtpmap.Some? && '/' in rtpmap.value
    ensures r.Some? ==> r.value.media == media && r.value.payload == Atoi(pt)
    ensures r.Some? ==> r.value.ccmFir.None? && r.value.nackPli.None?
  {
    match rtpmap
    case None => None
    case Some(text) =>
      var tokens := Split(text, '/', 3);
      SplitThreeTokens(text, '/');
      if |tokens| < 2 then None
      else Some(Caps(media, Atoi(pt), Atoi(tokens[1]), GetCapsCodecName(tokens[0]), None, None))
  }

  /** The second token of "<enc>/<rate><rest>" is the printed rate when `rest` is empty or starts a new token. */
  lemma SplitOfRtpmap(enc: string, rate: nat, rest: string)
    requires '/' !in enc
    requires rest == [] || rest[0] == '/'
    ensures var tokens := Split(enc + "/" + NatToString(rate) + rest, '/', 3);
      |tokens| >= 2 && tokens[0] == enc && tokens[1] == NatToString(rate)
  {
    var digits := NatToString(rate);
    var text := enc + "/" + digits + rest;
    var tail := digits + rest;
    assert IndexOf(text, '/') == Some(|enc|) by {
      assert text[|enc|] == '/';
      assert text[..|enc|] == enc;
    }
    assert text[..|enc|] == enc;
    assert text[|enc| + 1..] == tail;
    assert '/' !in digits by {
      forall i | 0 <= i < |digits| ensures digits[i] != '/' {
        assert IsDigit(digits[i]);
      }
    }
    assert Split(text, '/', 3) == [enc] + SplitRemainder(tail, '/', 2);
    if rest == [] {
      assert tail == digits;
      assert IndexOf(tail, '/').None?;
      assert SplitRemainder(tail, '/', 2) == [digits];
    } else {
      assert IndexOf(tail, '/') == Some(|digits|) by {
        assert tail[|digits|] == '/';
        assert tail[..|digits|] == digits;
      }
      assert tail[..|digits|] == digits;
    }
  }

  /**
   * Parsing an rtpmap written as "<enc>/<rate>[/<params>]" gives back the
   * payload type and clock rate it was written with, and the encoding name
   * under its GStreamer spelling.
   */
  lemma RtpmapRoundTrip(media: string, pt: nat, enc: string, rate: nat, rest: string)
    requires '/' !in enc
    requires rest == [] || rest[0] == '/'
    ensures GetCapsFromRtpmap(media, NatToString(pt), Some(enc + "/" + NatToString(rate) + rest))
      == Some(Caps(media, pt, rate, GetCapsCodecName(enc), None, None))
  {
    SplitOfRtpmap(enc, rate, rest);
    AtoiOfNatToString(pt, []);
    AtoiOfNatToString(rate, []);
    assert NatToString(pt) + [] == NatToString(pt);
    assert NatToString(rate) + [] == NatToString(rate);
  }

  /** The caps a format of `m` yields, with the rtcp-fb fields added on video media. */
  function FormatCaps(m: Media, f: string, fir: bool, pli: bool): (r: Option<Caps>)
    ensures r.Some? ==> r.value.payload == Atoi(f) && r.value.media == m.media
    ensures r.Some? ==> (r.value.ccmFir == (if m.media == VideoKind then Some(fir) else None))
    ensures r.Some? ==> (r.value.nackPli == (if m.media == VideoKind then Some(pli) else None))
  {
    match GetCapsFromRtpmap(m.media, f, Rtpmap(m, f))
    case None => None
    case Some(c) => Some(if m.media == VideoKind then c.(ccmFir := Some(fir), nackPli := Some(pli)) else c)
  }

  /** Format `f` of `m` answers payload type `pt`: atoi (f), compared as a guint, is `pt` and its rtpmap parses. */
  predicate Answers(m: Media, f: string, pt: uint32, fir: bool, pli: bool)
  {
    ToUint32(Atoi(f)) == pt && FormatCaps(m, f, fir, pli).Some?
  }

  /** The inner loop of get_caps_for_pt: the caps of the first of `formats` that answers `pt`. */
  function CapsInFormats(m: Media, formats: seq<string>, pt: uint32, fir: bool, pli: bool): (r: Option<Caps>)
    ensures r.Some? ==> ToUint32(r.value.payload) == pt
  {
    if formats == [] then None
    else if Answers(m, formats[0], pt, fir, pli) then FormatCaps(m, formats[0], fir, pli)
    else CapsInFormats(m, formats[1..], pt, fir, pli)
  }

  /** When format `k` is the first of `formats` to answer `pt`, the caps found are its caps. */
  lemma {:induction false} CapsInFormatsFirst(m: Media, formats: seq<string>, pt: uint32, fir: bool, pli: bool, k: nat)
    requires k < |formats| && Answers(m, formats[k], pt, fir, pli)
    requires forall k' :: 0 <= k' < k ==> !Answers(m, formats[k'], pt, fir, pli)
    ensures CapsInFormats(m, formats, pt, fir, pli) == FormatCaps(m, formats[k], fir, pli)
  {
    if k > 0 {
      var rest := formats[1..];
      forall k' | 0 <= k' < k - 1
        ensures !Answers(m, rest[k'], pt, fir, pli)
      {
        assert rest[k'] == formats[k' + 1];
      }
      assert rest[k - 1] == formats[k];
      CapsInFormatsFirst(m, rest, pt, fir, pli, k - 1);
    }
  }

  /** When no format of `formats` answers `pt`, no caps are found. */
  lemma {:induction false} CapsInFormatsNone(m: Media, formats: seq<string>, pt: uint32, fir: bool, pli: bool)
    requires forall k :: 0 <= k < |formats| ==> !Answers(m, formats[k], pt, fir, pli)
    ensures CapsInFormats(m, formats, pt, fir, pli).None?
  {
    if formats != [] {
      var rest := formats[1..];
      forall k | 0 <= k < |rest|
        ensures !Answers(m, rest[k], pt, fir, pli)
      {
        assert rest[k] == formats[k + 1];
      }
      CapsInFormatsNone(m, rest, pt, fir, pli);
    }
  }

  /** The outer loop of get_caps_for_pt: the caps of the first media of `medias` with an answering format. */
  function CapsInMedias(medias: seq<Media>, pt: uint32, fir: bool, pli: bool): (r: Option<Caps>)
    ensures r.Some? ==> ToUint32(r.value.payload) == pt
  {
    if medias == [] then None
    else
      var found := CapsInFormats(medias[0], medias[0].formats, pt, fir, pli);
      if found.Some? then found else CapsInMedias(medias[1..], pt, fir, pli)
  }

  /** When media `i` is the first of `medias` with caps for `pt`, the caps found are its caps. */
  lemma {:induction false} CapsInMediasFirst(medias: seq<Media>, pt: uint32, fir: bool, pli: bool, i: nat)
    requires i < |medias| && CapsInFormats(medias[i], medias[i].formats, pt, fir, pli).Some?
    requires forall i' :: 0 <= i' < i ==> CapsInFormats(medias[i'], medias[i'].formats, pt, fir, pli).None?
    ensures CapsInMedias(medias, pt, fir, pli) == CapsInFormats(medias[i], medias[i].formats, pt, fir, pli)
  {
    if i > 0 {
      var rest := medias[1..];
      forall i' | 0 <= i' < i - 1
        ensures CapsInFormats(rest[i'], rest[i'].formats, pt, fir, pli).None?
      {
        assert rest[i'] == medias[i' + 1];
      }
      assert rest[i - 1] == medias[i];
      CapsInMediasFirst(rest, pt, fir, pli, i - 1);
    }
  }

  /** When no media of `medias` has caps for `pt`, none are found. */
  lemma {:induction false} CapsInMediasNone(medias: seq<Media>, pt: uint32, fir: bool, pli: bool)
    requires forall i :: 0 <= i < |medias| ==> CapsInFormats(medias[i], medias[i].formats, pt, fir, pli).None?
    ensures CapsInMedias(medias, pt, fir, pli).None?
  {
    if medias != [] {
      var rest := medias[1..];
      forall i | 0 <= i < |rest|
        ensures CapsInFormats(rest[i], rest[i].formats, pt, fir, pli).None?
      {
        assert rest[i] == medias[i + 1];
      }
      CapsInMediasNone(rest, pt, fir, pli);
    }
  }

  /** The answer the caps are read from: the local answer if there is one, else the remote answer. */
  function AnswerOf(localAnswer: Option<Message>, remoteAnswer: Option<Message>): (r: Option<Message>)
    ensures r.None? <==> localAnswer.None? && remoteAnswer.None?
    ensures localAnswer.Some? ==> r == localAnswer
  {
    if localAnswer.Some? then localAnswer else remoteAnswer
  }

  /**
   * What kms_base_rtp_endpoint_get_caps_for_pt returns: the caps of the first format,
   * media by media, whose payload type is `pt` and whose rtpmap parses.
   */
  function CapsForPt(localAnswer: Option<Message>, remoteAnswer: Option<Message>, pt: uint32, fir: bool, pli: bool): (r: Option<Caps>)
    ensures AnswerOf(localAnswer, remoteAnswer).None? ==> r.None?
    ensures r.Some? ==> ToUint32(r.value.payload) == pt
  {
    match AnswerOf(localAnswer, remoteAnswer)
    case None => None
    case Some(answer) => CapsInMedias(answer.medias, pt, fir, pli)
  }

  /**
   * The caps rtpbin's request-pt-map gets: those of the negotiated answer,
   * or, when no format answers, caps holding only the payload type and the
   * two rtcp-fb fields.
   */
  datatype PtMap = Found(caps: Caps) | Fallback(payload: uint32, ccmFir: bool, nackPli: bool)

  /** kms_base_rtp_endpoint_request_pt_map: the caps for `pt`, never nothing. */
  function PtMapFor(localAnswer: Option<Message>, remoteAnswer: Option<Message>, pt: uint32, fir: bool, pli: bool): (r: PtMap)
    ensures r.Fallback? <==> CapsForPt(localAnswer, remoteAnswer, pt, fir, pli).None?
    ensures r.Found? ==> ToUint32(r.caps.payload) == pt
    ensures r.Fallback? ==> r == Fallback(pt, fir, pli)
  {
    match CapsForPt(localAnswer, remoteAnswer, pt, fir, pli)
    case Some(caps) => Found(caps)
    case None => Fallback(pt, fir, pli)
  }
}
