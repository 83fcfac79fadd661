/**
 * decodeBitmapSafely, which PdfViewModel and PdfGenerator declare with the same
 * text: a bounds-only probe, the sample size from those bounds, then the real
 * decode; any exception becomes null.
 */
module Decoder {
  import opened Wrappers
  import opened Android
  import opened MediaStore
  import SampleSize

  /** The inSampleSize the decoder sets after a probe that did not throw. */
  function SampleSizeOf(probe: Probe): int
    requires !probe.ProbeThrew?
  {
    match probe
    case ProbeNoStream => SampleSize.InSampleSize(0, 0, SampleSize.ReqWidth, SampleSize.ReqHeight)
    case Probed(w, h) => SampleSize.InSampleSize(h, w, SampleSize.ReqWidth, SampleSize.ReqHeight)
  }

  /** The bitmap decodeBitmapSafely returns for `uri`, or None for its null. */
  function SafeDecode(p: Platform, uri: Uri): (bitmap: Option<Dims>)
    ensures bitmap.Some? <==> !p.probe(uri).ProbeThrew? && p.decode(uri, SampleSizeOf(p.probe(uri))).Bitmap?
    ensures bitmap.Some? ==> bitmap.value == p.decode(uri, SampleSizeOf(p.probe(uri))).size
  {
    var probe := p.probe(uri);
    if probe.ProbeThrew? then None
    else
      match p.decode(uri, SampleSizeOf(probe))
      case Bitmap(size) => Some(size)
      case _ => None
  }

  /** The input streams decodeBitmapSafely opens: one for the probe, one more unless the probe threw. */
  function InputOpens(p: Platform, uri: Uri): seq<Event>
  {
    if p.probe(uri).ProbeThrew? then [OpenedInput(uri)] else [OpenedInput(uri), OpenedInput(uri)]
  }

  /** The input streams opened while decoding each of `uris` in turn. */
  function InputOpensAll(p: Platform, uris: seq<Uri>): seq<Event>
  {
    if uris == [] then []
    else InputOpensAll(p, uris[..|uris| - 1]) + InputOpens(p, uris[|uris| - 1])
  }

  /** Decoding one more image opens its streams after those of the images before it. */
  lemma InputOpensAllStep(p: Platform, uris: seq<Uri>, i: nat)
    requires i < |uris|
    ensures InputOpensAll(p, uris[..i + 1]) == InputOpensAll(p, uris[..i]) + InputOpens(p, uris[i])
  {
    assert uris[..i + 1][..i] == uris[..i];
  }

  /**
   * The bitmaps of `uris` decoded in order until the first null: every one
   * before it decoded, and the one at its length (if any) did not.
   */
  function DecodedRun(p: Platform, uris: seq<Uri>): (bitmaps: seq<Dims>)
    ensures |bitmaps| <= |uris|
    ensures forall k :: 0 <= k < |bitmaps| ==> SafeDecode(p, uris[k]) == Some(bitmaps[k])
    ensures |bitmaps| < |uris| ==> SafeDecode(p, uris[|bitmaps|]).None?
  {
    if uris == [] then []
    else
      match SafeDecode(p, uris[0])
      case None => []
      case Some(bitmap) => [bitmap] + DecodedRun(p, uris[1..])
  }

  /** How many images are decoded: all of them, or those up to and including the first failure. */
  function Attempted(p: Platform, uris: seq<Uri>): (n: nat)
    ensures n <= |uris|
  {
    var decoded := |DecodedRun(p, uris)|;
    if decoded < |uris| then decoded + 1 else decoded
  }

  /** The run of decoded bitmaps ends exactly at the first image that does not decode. */
  lemma DecodedRunEndsAt(p: Platform, uris: seq<Uri>, i: nat)
    requires i <= |uris|
    requires forall j :: 0 <= j < i ==> SafeDecode(p, uris[j]).Some?
    requires i < |uris| ==> SafeDecode(p, uris[i]).None?
    ensures |DecodedRun(p, uris)| == i
    ensures forall j :: 0 <= j < i ==> DecodedRun(p, uris)[j] == SafeDecode(p, uris[j]).value
  {
  }

  /** An image whose probe fits both bounds, or found no stream, is decoded at full size (inSampleSize 1). */
  lemma WithinBoundsDecodedAtFullSize(p: Platform, uri: Uri)
    requires p.probe(uri).ProbeNoStream?
          || (p.probe(uri).Probed? && p.probe(uri).outWidth <= SampleSize.ReqWidth
                                   && p.probe(uri).outHeight <= SampleSize.ReqHeight)
    ensures SafeDecode(p, uri) == if p.decode(uri, 1).Bitmap? then Some(p.decode(uri, 1).size) else None
  {
  }

  /** decodeBitmapSafely(uri): never throws; a failed probe or decode is None. */
  method DecodeBitmapSafely(p: Platform, resolver: ContentResolver, uri: Uri) returns (bitmap: Option<Dims>)
    modifies resolver`log
    ensures bitmap == SafeDecode(p, uri)
    ensures resolver.log == old(resolver.log) + InputOpens(p, uri)
    ensures resolver.Valid() <==> old(resolver.Valid())
    ensures WritesWhilePending(old(resolver.log)) ==> WritesWhilePending(resolver.log)
  {
    resolver.OpenInputStream(uri);
    var probe := p.probe(uri);
    if probe.ProbeThrew? {
      return None;
    }
    var inSampleSize := SampleSizeOf(probe);
    resolver.OpenInputStream(uri);
    match p.decode(uri, inSampleSize)
    case Bitmap(size) => bitmap := Some(size);
    case _ => bitmap := None;
  }
}
