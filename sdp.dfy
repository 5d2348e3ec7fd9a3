/**
 * An abstract SDP session description (RFC 4566): session-level attributes
 * and a sequence of media sections, as the GStreamer SDP library stores
 * them, together with the attribute lookups the endpoint relies on.
 *
 * The lookups sdp_utils_sdp_media_get_rtpmap and
 * gst_sdp_media_format_get_encoding_name live in sdp_utils.c, which is not
 * part of this model; `Rtpmap` and `EncodingName` state the behaviour the
 * endpoint assumes of them.
 */
module Sdp {
  import opened Text

  /** `a=<key>:<value>`; an attribute without a value carries "". */
  datatype Attribute = Attribute(key: string, value: string)

  /** `c=<netType> <addrType> <address>` with its TTL and address count. */
  datatype Connection = Connection(netType: string, addrType: string, address: string, ttl: nat, addrNumber: nat)

  /** One `m=` section: media kind, port, protocol token, formats, `c=` lines and `a=` lines. */
  datatype Media = Media(
    media: string,
    port: nat,
    proto: Option<string>,
    formats: seq<string>,
    connections: seq<Connection>,
    attributes: seq<Attribute>)

  datatype Message = Message(attributes: seq<Attribute>, medias: seq<Media>)

  // Names fixed by the endpoint's headers.
  const AudioKind := "audio"
  const VideoKind := "video"
  const GroupKey := "group"
  const RtcpKey := "rtcp"
  const RtcpMuxKey := "rtcp-mux"
  const RtcpFbKey := "rtcp-fb"
  const SsrcKey := "ssrc"
  const RtpmapKey := "rtpmap"
  const Vp8EncodingName := "VP8"
  const OpusEncodingName := "OPUS"

  /**
   * The values of the attributes named `key`, in order: what
   * gst_sdp_*_get_attribute_val_n (.., key, i) returns for i = 0, 1, ...
   */
  function Values(attrs: seq<Attribute>, key: string): (vs: seq<string>)
    ensures |vs| <= |attrs|
  {
    if attrs == [] then []
    else (if attrs[0].key == key then [attrs[0].value] else []) + Values(attrs[1..], key)
  }

  lemma {:induction false} ValuesAppend(a: seq<Attribute>, b: seq<Attribute>, key: string)
    ensures Values(a + b, key) == Values(a, key) + Values(b, key)
  {
    if a == [] {
      assert a + b == b;
    } else {
      var head := if a[0].key == key then [a[0].value] else [];
      assert (a + b)[0] == a[0];
      assert (a + b)[1..] == a[1..] + b;
      ValuesAppend(a[1..], b, key);
      calc {
        Values(a + b, key);
        head + Values(a[1..] + b, key);
        head + (Values(a[1..], key) + Values(b, key));
        (head + Values(a[1..], key)) + Values(b, key);
      }
    }
  }

  lemma {:induction false} ValuesOfOtherKeys(b: seq<Attribute>, key: string)
    requires forall i :: 0 <= i < |b| ==> b[i].key != key
    ensures Values(b, key) == []
  {
    if b != [] {
      ValuesOfOtherKeys(b[1..], key);
    }
  }

  /** Appending attributes with other names leaves the values of `key` as they were. */
  lemma ValuesAppendOther(a: seq<Attribute>, b: seq<Attribute>, key: string)
    requires forall i :: 0 <= i < |b| ==> b[i].key != key
    ensures Values(a + b, key) == Values(a, key)
  {
    ValuesAppend(a, b, key);
    ValuesOfOtherKeys(b, key);
  }

  /** gst_sdp_media_get_attribute_val (media, key) != NULL. */
  predicate HasAttribute(attrs: seq<Attribute>, key: string)
  {
    Values(attrs, key) != []
  }

  /** The rtpmap text after "<pt> " in the first `rtpmap` value for payload type `pt`. */
  function RtpmapIn(rtpmaps: seq<string>, pt: string): (r: Option<string>)
    ensures r.Some? ==> exists i :: 0 <= i < |rtpmaps| && rtpmaps[i] == pt + " " + r.value
  {
    if rtpmaps == [] then None
    else
      var prefix := pt + " ";
      if |prefix| <= |rtpmaps[0]| && rtpmaps[0][..|prefix|] == prefix then
        assert rtpmaps[0] == prefix + rtpmaps[0][|prefix|..];
        Some(rtpmaps[0][|prefix|..])
      else RtpmapIn(rtpmaps[1..], pt)
  }

  /** sdp_utils_sdp_media_get_rtpmap (media, pt). */
  function Rtpmap(m: Media, pt: string): Option<string>
  {
    RtpmapIn(Values(m.attributes, RtpmapKey), pt)
  }

  /**
   * gst_sdp_media_format_get_encoding_name (media, pt): the first `/`-token
   * of the rtpmap, when the rtpmap has at least two tokens; NULL otherwise.
   */
  function EncodingName(m: Media, pt: string): Option<string>
  {
    match Rtpmap(m, pt)
    case None => None
    case Some(r) =>
      var tokens := Split(r, '/', 3);
      if |tokens| >= 2 then Some(tokens[0]) else None
  }

  /**
   * g_ascii_strcasecmp (VP8_ENCONDING_NAME, name) == 0. GLib answers 0 when an
   * argument is NULL, so a format without an encoding name passes the test.
   */
  predicate IsVp8Name(name: Option<string>)
  {
    name.None? || EqualsIgnoreCase(Vp8EncodingName, name.value)
  }

  predicate IsVp8Format(m: Media, pt: string)
  {
    IsVp8Name(EncodingName(m, pt))
  }

  /** Appending attributes other than `rtpmap` does not change any format's encoding name. */
  lemma EncodingNameAfterAppend(m: Media, extra: seq<Attribute>, pt: string)
    requires forall i :: 0 <= i < |extra| ==> extra[i].key != RtpmapKey
    ensures EncodingName(m.(attributes := m.attributes + extra), pt) == EncodingName(m, pt)
  {
    ValuesAppendOther(m.attributes, extra, RtpmapKey);
  }

  /** Some media section of `medias` is of kind `kind`. */
  predicate HasKind(medias: seq<Media>, kind: string)
  {
    exists i :: 0 <= i < |medias| && medias[i].media == kind
  }

  /** The number of media sections of kind `kind`. */
  function CountKind(medias: seq<Media>, kind: string): (n: nat)
    ensures n <= |medias|
    ensures n > 0 <==> HasKind(medias, kind)
  {
    if medias == [] then 0
    else
      var init := medias[..|medias| - 1];
      assert forall i :: 0 <= i < |init| ==> init[i] == medias[i];
      CountKind(init, kind) + (if medias[|medias| - 1].media == kind then 1 else 0)
  }

  lemma CountKindSnoc(init: seq<Media>, last: Media, kind: string)
    ensures CountKind(init + [last], kind) == CountKind(init, kind) + (if last.media == kind then 1 else 0)
  {
    assert (init + [last])[..|init|] == init;
  }
}
