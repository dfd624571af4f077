/**
 * The downloader middleware that forces the Korean legacy codec onto a response.
 * The decision looks at the `Content-Type` header first and, only when that names
 * no Korean codec, at a bounded window at the start of the body.
 */
module EncodingFixer {
  import opened Wrappers
  import opened Search
  import opened Ascii

  /** The one codec every marker is mapped to. */
  const ForcedCodec: string := "cp949"

  /** Header markers, the middleware's `CANDIDATES`. */
  const Candidates: seq<string> := ["euc-kr", "ks_c_5601", "cp949"]

  /** Body markers, searched as bytes; `cp949` is not among them. */
  const BodyMarkers: seq<seq<byte>> := [Encode("charset=euc-kr"), Encode("charset=ks_c_5601")]

  /** How many leading body bytes are inspected. */
  const BodyWindow: nat := 4096

  /** A response as the middleware sees it; `declaredEncoding` is the encoding given to `replace`. */
  datatype Response = Response(contentType: Option<seq<byte>>, body: seq<byte>, declaredEncoding: Option<string>)

  predicate NoUpper(s: string)
  {
    forall i :: 0 <= i < |s| ==> !('A' <= s[i] <= 'Z')
  }

  /**
   * The header text: the header value decoded as ASCII with other bytes dropped, then
   * lowercased. A missing header (or one whose lookup fails) reads as the empty string.
   */
  function HeaderText(header: Option<seq<byte>>): (ct: string)
    ensures IsAscii(ct) && NoUpper(ct)
    ensures header.None? ==> ct == ""
    ensures header.Some? ==> |ct| <= |header.value|
  {
    LowerAscii(AsciiIgnore(header.GetOr([])))
  }

  /** The body window, lowercased: `body[:4096].lower()`. */
  function BodyWindowLower(body: seq<byte>): (r: seq<byte>)
    ensures |r| == if |body| < BodyWindow then |body| else BodyWindow
    ensures forall i :: 0 <= i < |r| ==> r[i] == LowerByte(body[i])
  {
    LowerBytes(if |body| < BodyWindow then body else body[..BodyWindow])
  }

  /** The codec to force, or `None` to leave the response alone. */
  function Resolve(header: Option<seq<byte>>, body: seq<byte>): (force: Option<string>)
    ensures force == None || force == Some(ForcedCodec)
  {
    if ContainsAny(HeaderText(header), Candidates) then Some(ForcedCodec)
    else if ContainsAny(BodyWindowLower(body), BodyMarkers) then Some(ForcedCodec)
    else None
  }

  /** `process_response`: the same response, or a copy with the forced codec declared. */
  function ProcessResponse(resp: Response): (r: Response)
    ensures r.contentType == resp.contentType && r.body == resp.body
    ensures Resolve(resp.contentType, resp.body).None? ==> r == resp
    ensures Resolve(resp.contentType, resp.body).Some? ==> r.declaredEncoding == Some(ForcedCodec)
  {
    match Resolve(resp.contentType, resp.body)
    case Some(codec) => resp.(declaredEncoding := Some(codec))
    case None => resp
  }

  /** Some header marker occurs in the header text. */
  ghost predicate HeaderMarkerAt(header: Option<seq<byte>>, k: int, i: int)
  {
    0 <= k < |Candidates| && OccursAt(HeaderText(header), Candidates[k], i)
  }

  /** Some body marker occurs in the lowercased body window. */
  ghost predicate BodyMarkerAt(body: seq<byte>, k: int, i: int)
  {
    0 <= k < |BodyMarkers| && OccursAt(BodyWindowLower(body), BodyMarkers[k], i)
  }

  lemma ContainsAnyIff<T>(hay: seq<T>, needles: seq<seq<T>>)
    ensures ContainsAny(hay, needles) <==> exists k, i :: 0 <= k < |needles| && OccursAt(hay, needles[k], i)
  {
    forall k | 0 <= k < |needles| {
      ContainsIff(hay, needles[k]);
    }
  }

  /** The override happens exactly when some marker occurs in the header text or the body window. */
  lemma ResolveIff(header: Option<seq<byte>>, body: seq<byte>)
    ensures Resolve(header, body) == Some(ForcedCodec) <==>
      (exists k, i :: HeaderMarkerAt(header, k, i)) || (exists k, i :: BodyMarkerAt(body, k, i))
    ensures Resolve(header, body) == None <==>
      (forall k, i :: !HeaderMarkerAt(header, k, i)) && (forall k, i :: !BodyMarkerAt(body, k, i))
  {
    ContainsAnyIff(HeaderText(header), Candidates);
    ContainsAnyIff(BodyWindowLower(body), BodyMarkers);
    if ContainsAny(HeaderText(header), Candidates) {
      var k, i :| 0 <= k < |Candidates| && OccursAt(HeaderText(header), Candidates[k], i);
      assert HeaderMarkerAt(header, k, i);
    } else if ContainsAny(BodyWindowLower(body), BodyMarkers) {
      var k, i :| 0 <= k < |BodyMarkers| && OccursAt(BodyWindowLower(body), BodyMarkers[k], i);
      assert BodyMarkerAt(body, k, i);
    }
  }

  /** A header marker forces the codec whatever the body holds. */
  lemma HeaderMarkerWins(header: Option<seq<byte>>, body: seq<byte>, k: int, i: int)
    requires HeaderMarkerAt(header, k, i)
    ensures Resolve(header, body) == Some(ForcedCodec)
  {
    ContainsIff(HeaderText(header), Candidates[k]);
  }

  /** Without a header marker, a body marker in the window forces the codec. */
  lemma BodyMarkerFallback(header: Option<seq<byte>>, body: seq<byte>, k: int, i: int)
    requires forall k', i' :: !HeaderMarkerAt(header, k', i')
    requires BodyMarkerAt(body, k, i)
    ensures Resolve(header, body) == Some(ForcedCodec)
  {
    ResolveIff(header, body);
  }

  /** Neither a header marker nor a body marker: the response is returned unchanged. */
  lemma NoMarkerUnchanged(resp: Response)
    requires forall k, i :: !HeaderMarkerAt(resp.contentType, k, i)
    requires forall k, i :: !BodyMarkerAt(resp.body, k, i)
    ensures ProcessResponse(resp) == resp
  {
    ResolveIff(resp.contentType, resp.body);
  }

  /** Bytes from index 4096 on never matter. */
  lemma WindowOnly(header: Option<seq<byte>>, body1: seq<byte>, body2: seq<byte>)
    requires |body1| >= BodyWindow && |body2| >= BodyWindow
    requires body1[..BodyWindow] == body2[..BodyWindow]
    ensures Resolve(header, body1) == Resolve(header, body2)
  {
    assert BodyWindowLower(body1) == BodyWindowLower(body2);
  }

  /** A body marker that starts at or after byte 4096 is ignored, even when it would match. */
  lemma MarkerPastWindowIgnored(header: Option<seq<byte>>, prefix: seq<byte>, k: int, rest: seq<byte>)
    requires |prefix| >= BodyWindow
    requires 0 <= k < |BodyMarkers|
    ensures Resolve(header, prefix + BodyMarkers[k] + rest) == Resolve(header, prefix)
  {
    assert (prefix + BodyMarkers[k] + rest)[..BodyWindow] == prefix[..BodyWindow];
  }

  /** A raw header value holding a marker, in any letter case, forces the codec. */
  lemma RawHeaderMarker(raw: seq<byte>, before: seq<byte>, k: int, after: seq<byte>, body: seq<byte>)
    requires 0 <= k < |Candidates|
    requires LowerBytes(raw) == before + Encode(Candidates[k]) + after
    ensures Resolve(Some(raw), body) == Some(ForcedCodec)
  {
    var m := Candidates[k];
    LowerCommutes(raw);
    AsciiIgnoreConcat(before + Encode(m), after);
    AsciiIgnoreConcat(before, Encode(m));
    AsciiIgnoreEncode(m);
    assert HeaderText(Some(raw)) == AsciiIgnore(before) + m + AsciiIgnore(after);
    ContainsInMiddle(AsciiIgnore(before), m, AsciiIgnore(after));
  }

  /** The header is read case-insensitively: values equal up to ASCII case decide alike. */
  lemma HeaderCaseInsensitive(h1: seq<byte>, h2: seq<byte>, body: seq<byte>)
    requires LowerBytes(h1) == LowerBytes(h2)
    ensures Resolve(Some(h1), body) == Resolve(Some(h2), body)
  {
    LowerCommutes(h1);
    LowerCommutes(h2);
  }

  /** A missing header behaves as an empty one and supplies no marker. */
  lemma MissingHeaderIsEmpty(body: seq<byte>)
    ensures Resolve(None, body) == Resolve(Some([]), body)
    ensures !ContainsAny(HeaderText(None), Candidates)
  {
    forall k | 0 <= k < |Candidates| ensures !Contains(HeaderText(None), Candidates[k]) {
      LongerNotContained(HeaderText(None), Candidates[k]);
    }
  }

  /** `charset=cp949` alone as the body does not trigger the override. */
  lemma Cp949OnlyInBody()
    ensures Resolve(None, Encode("charset=cp949")) == None
  {
    MissingHeaderIsEmpty(Encode("charset=cp949"));
    var w := BodyWindowLower(Encode("charset=cp949"));
    LongerNotContained(w, BodyMarkers[0]);
    LongerNotContained(w, BodyMarkers[1]);
  }

  /** Nor does a `<meta charset=cp949>` tag, a body long enough to hold either body marker. */
  lemma Cp949MetaTagIgnored()
    ensures Resolve(None, Encode("<meta charset=cp949>")) == None
  {
    var body := Encode("<meta charset=cp949>");
    MissingHeaderIsEmpty(body);
    var w := BodyWindowLower(body);
    NoBodyMarkerInMetaTag(w);
  }

  /** A window whose bytes hold neither `u` nor `k` holds no body marker. */
  lemma NoBodyMarkerInMetaTag(w: seq<byte>)
    requires forall i :: 0 <= i < |w| ==> w[i] != 117 && w[i] != 107
    ensures !ContainsAny(w, BodyMarkers)
  {
    var euc, ks := BodyMarkers[0], BodyMarkers[1];
    forall i | 0 <= i && i + |euc| <= |w| ensures !OccursAt(w, euc, i) {
      assert w[i..i + |euc|][9] == w[i + 9] != euc[9];
    }
    forall i | 0 <= i && i + |ks| <= |w| ensures !OccursAt(w, ks, i) {
      assert w[i..i + |ks|][8] == w[i + 8] != ks[8];
    }
    ContainsIff(w, euc);
    ContainsIff(w, ks);
  }

  /** Dropping non-ASCII bytes can join a marker: `euc`, byte 0xFF, `-KR` reads as `euc-kr`. */
  lemma MarkerSplicedAcrossDroppedByte(body: seq<byte>)
    ensures Resolve(Some(Encode("euc") + [0xFF] + Encode("-KR")), body) == Some(ForcedCodec)
  {
    var raw := Encode("euc") + [0xFF] + Encode("-KR");
    SplicedHeaderDecodes();
    assert LowerAscii("euc-KR") == "euc-kr";
    assert HeaderText(Some(raw)) == "euc-kr";
    assert StartsWith(HeaderText(Some(raw)), Candidates[0]);
  }

  /** The bytes `euc`, 0xFF, `-KR` decode to `euc-KR`. */
  lemma SplicedHeaderDecodes()
    ensures AsciiIgnore(Encode("euc") + [0xFF] + Encode("-KR")) == "euc-KR"
  {
    DropsHighByte(Encode("euc"), 0xFF, Encode("-KR"));
    assert Encode("euc") + Encode("-KR") == Encode("euc-KR");
    AsciiIgnoreEncode("euc-KR");
  }

  /** Applying the middleware twice is the same as applying it once. */
  lemma ProcessResponseIdempotent(resp: Response)
    ensures ProcessResponse(ProcessResponse(resp)) == ProcessResponse(resp)
  {
  }
}
