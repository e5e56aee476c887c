/** The GIF records of the Klipy search client (`src/klipy.rs`) and the two
    accessors that pick which URL to share and which to preview. */
module Klipy {
  import opened Wrappers
  import opened Bytes

  /** One rendition of a GIF. */
  datatype MediaFormat = MediaFormat(url: string, dims: Option<seq<u32>>, size: Option<u64>)

  /** The renditions Klipy may return for a GIF. */
  datatype MediaFormats = MediaFormats(
    gif: Option<MediaFormat>,
    preview: Option<MediaFormat>,
    tiny: Option<MediaFormat>)

  /** A search result. */
  datatype Gif = Gif(
    id: string,
    title: Option<string>,
    url: Option<string>,
    previewUrl: Option<string>,
    mediaFormats: Option<MediaFormats>)
  {
    /** `share_url`: the full-size rendition's URL when Klipy sent one,
        otherwise the top-level `url`. */
    function ShareUrl(): (r: Option<string>)
      ensures mediaFormats.Some? && mediaFormats.value.gif.Some? ==>
                r == Some(mediaFormats.value.gif.value.url)
      ensures mediaFormats.None? || mediaFormats.value.gif.None? ==> r == url
      ensures r.None? <==> url.None? && (mediaFormats.None? || mediaFormats.value.gif.None?)
    {
      RenditionUrl(if mediaFormats.Some? then mediaFormats.value.gif else None).Or(url)
    }

    /** `preview_url`: the preview rendition's URL when Klipy sent one,
        otherwise the top-level `preview_url`. */
    function PreviewUrl(): (r: Option<string>)
      ensures mediaFormats.Some? && mediaFormats.value.preview.Some? ==>
                r == Some(mediaFormats.value.preview.value.url)
      ensures mediaFormats.None? || mediaFormats.value.preview.None? ==> r == previewUrl
      ensures r.None? <==> previewUrl.None? && (mediaFormats.None? || mediaFormats.value.preview.None?)
    {
      RenditionUrl(if mediaFormats.Some? then mediaFormats.value.preview else None).Or(previewUrl)
    }
  }

  /** The URL of a rendition, if there is one. */
  function RenditionUrl(f: Option<MediaFormat>): (r: Option<string>)
    ensures r.Some? <==> f.Some?
    ensures f.Some? ==> r.value == f.value.url
  {
    match f
    case Some(m) => Some(m.url)
    case None => None
  }

  /** Without media formats both accessors return the top-level fields. */
  lemma WithoutFormatsTopLevel(g: Gif)
    requires g.mediaFormats.None?
    ensures g.ShareUrl() == g.url && g.PreviewUrl() == g.previewUrl
  {
  }

  /** The small `tiny` rendition is never read: replacing it changes neither
      accessor. */
  lemma TinyIsIgnored(g: Gif, tiny: Option<MediaFormat>)
    requires g.mediaFormats.Some?
    ensures var g' := g.(mediaFormats := Some(g.mediaFormats.value.(tiny := tiny)));
      g'.ShareUrl() == g.ShareUrl() && g'.PreviewUrl() == g.PreviewUrl()
  {
  }

  /** The accessors are independent: the share URL reads nothing of the
      preview fields, and the preview URL nothing of the full-size ones. */
  lemma AccessorsIndependent(g: Gif, url: Option<string>, gif: Option<MediaFormat>,
                             previewUrl: Option<string>, preview: Option<MediaFormat>)
    requires g.mediaFormats.Some?
    ensures var m := g.mediaFormats.value;
      g.(previewUrl := previewUrl, mediaFormats := Some(m.(preview := preview))).ShareUrl() == g.ShareUrl()
      && g.(url := url, mediaFormats := Some(m.(gif := gif))).PreviewUrl() == g.PreviewUrl()
  {
  }

  /** The full-size rendition takes precedence over the top-level URL even
      when both are present. */
  lemma RenditionWins(g: Gif, m: MediaFormat)
    requires g.mediaFormats.Some?
    ensures g.(mediaFormats := Some(g.mediaFormats.value.(gif := Some(m)))).ShareUrl() == Some(m.url)
    ensures g.(mediaFormats := Some(g.mediaFormats.value.(preview := Some(m)))).PreviewUrl() == Some(m.url)
  {
  }
}
