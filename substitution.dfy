/**
 * The three serving-time filters that rewrite an image URL's matched
 * extension to `.webp` when the correspondingly rewritten file path is on
 * disk (for a path the pattern does not match, that is the file itself):
 * the attachment URL
 * (`ssic_serve_webp`), a single rendered image (`ssic_src_webp`) and every
 * entry of a responsive `srcset` (`ssic_srcset_webp`). The existence test is
 * membership in the set of files on disk at the time of the call.
 */
module Substitution {
  import opened Wrappers
  import opened PhpStrings
  import opened WebpPath
  import opened WordPress
  import Conversion

  /**
   * `ssic_serve_webp($url, $post_id)`: the rewritten URL when the rewritten
   * attached file exists, otherwise the URL unchanged.
   */
  function ServeWebp(url: string, postId: int, site: Site, files: set<string>): string {
    if FileExists(files, ReplaceExtension(AttachedFile(site, Some(postId))))
    then ReplaceExtension(url)
    else url
  }

  /** `str_replace(baseurl, basedir, $url)`: every occurrence of the base URL becomes the base directory. */
  function UrlToPath(url: string, dir: UploadDir): string {
    ReplaceAll(url, dir.baseurl, dir.basedir)
  }

  /**
   * The rewrite `ssic_src_webp` and `ssic_srcset_webp` share: the URL is
   * rewritten exactly when the rewrite of its mapped path exists.
   */
  function RewriteUrl(url: string, dir: UploadDir, files: set<string>): string {
    if FileExists(files, ReplaceExtension(UrlToPath(url, dir))) then ReplaceExtension(url) else url
  }

  /**
   * The array `wp_get_attachment_image_src` filters: `[url, width, height,
   * is_intermediate]`, or `false` when there is no image.
   */
  datatype ImageSrc = NoImage | ImageSrc(url: string, width: int, height: int, intermediate: bool)

  /** `ssic_src_webp`: only element `[0]`, the URL, can change. */
  function SrcWebp(image: ImageSrc, dir: UploadDir, files: set<string>): (r: ImageSrc)
    ensures image.NoImage? ==> r == image
    ensures image.ImageSrc? ==> r == image.(url := RewriteUrl(image.url, dir, files))
  {
    match image
    case NoImage => NoImage
    case ImageSrc(url, _, _, _) => image.(url := RewriteUrl(url, dir, files))
  }

  /** One entry of `wp_calculate_image_srcset`'s sources: `url`, `descriptor` and `value`. */
  datatype Source = Source(url: string, descriptor: string, value: int)

  /**
   * One entry after the shared rewrite of its URL, every other field kept:
   * the specification of the loop body `RewriteEntry`, which `SrcsetWebp`'s
   * invariant and postcondition are stated with.
   */
  function RewriteSource(source: Source, dir: UploadDir, files: set<string>): Source {
    source.(url := RewriteUrl(source.url, dir, files))
  }

  /** One width-keyed entry of the sources array, in array order. */
  datatype Entry = Entry(width: int, source: Source)

  /**
   * `ssic_srcset_webp`: each entry's URL is rewritten by its own existence
   * test; the widths, their order, and every other field of every entry are kept.
   */
  method SrcsetWebp(sources: seq<Entry>, dir: UploadDir, files: set<string>)
    returns (result: seq<Entry>)
    ensures |result| == |sources|
    ensures forall i :: 0 <= i < |sources| ==>
      result[i] == Entry(sources[i].width, RewriteSource(sources[i].source, dir, files))
  {
    result := sources;
    for i := 0 to |sources|
      invariant |result| == |sources|
      invariant forall k :: 0 <= k < i ==>
        result[k] == Entry(sources[k].width, RewriteSource(sources[k].source, dir, files))
      invariant forall k :: i <= k < |sources| ==> result[k] == sources[k]
    {
      var updated := RewriteEntry(sources[i].source, dir, files);
      result := result[i := Entry(sources[i].width, updated)];
    }
  }

  /**
   * The body of the `foreach`, statement by statement: one entry's URL is
   * rewritten when the rewrite of its mapped path exists; proved to compute `RewriteSource`.
   */
  method RewriteEntry(source: Source, dir: UploadDir, files: set<string>) returns (updated: Source)
    ensures updated == RewriteSource(source, dir, files)
  {
    updated := source;
    var url := source.url;
    var path := UrlToPath(url, dir);
    var webp := ReplaceExtension(path);
    if FileExists(files, webp) {
      updated := updated.(url := ReplaceExtension(url));
    }
  }

  /**
   * `ssic_serve_webp`'s rule against the pattern: with the rewritten
   * attached file missing the URL comes back as it is; with it present the URL's
   * matched extension becomes `.webp`, and a URL the pattern does not match
   * comes back as it is either way.
   */
  lemma ServeWebpRule(url: string, postId: int, site: Site, files: set<string>)
    ensures var r := ServeWebp(url, postId, site, files);
      var rewritten := ReplaceExtension(AttachedFile(site, Some(postId)));
      && (!FileExists(files, rewritten) ==> r == url)
      && (FileExists(files, rewritten) ==> forall i :: ExtensionAt(url, i) ==> r == url[..i] + WEBP_SUFFIX)
      && ((forall i :: !ExtensionAt(url, i)) ==> r == url)
  {
    ReplaceExtensionMatchesPattern(url);
  }

  /**
   * The shared rule of `ssic_src_webp` and `ssic_srcset_webp` against the
   * pattern: the existence test is on the rewritten `str_replace`d path, the
   * rewrite on the URL itself.
   */
  lemma RewriteUrlRule(url: string, dir: UploadDir, files: set<string>)
    ensures var r := RewriteUrl(url, dir, files);
      var rewritten := ReplaceExtension(ReplaceAll(url, dir.baseurl, dir.basedir));
      && (!FileExists(files, rewritten) ==> r == url)
      && (FileExists(files, rewritten) ==> forall i :: ExtensionAt(url, i) ==> r == url[..i] + WEBP_SUFFIX)
      && ((forall i :: !ExtensionAt(url, i)) ==> r == url)
  {
    ReplaceExtensionMatchesPattern(url);
  }

  /**
   * An attachment whose file the pattern does not match is its own "sibling":
   * while that file exists, the URL is rewritten, although no `.webp` file
   * exists for it.
   */
  lemma UnmatchedAttachmentRewritesUrl(url: string, postId: int, site: Site, files: set<string>)
    requires AttachedFile(site, Some(postId)) in files && AttachedFile(site, Some(postId)) != ""
    requires !HasExtension(AttachedFile(site, Some(postId)))
    ensures ServeWebp(url, postId, site, files) == ReplaceExtension(url)
  {
    ReplaceExtensionWithoutMatch(AttachedFile(site, Some(postId)));
  }

  /**
   * Applying the shared rewrite to its own output changes nothing, so a URL
   * passed through more than one of these filters is rewritten at most once.
   */
  lemma {:induction false} RewriteUrlIdempotent(url: string, dir: UploadDir, files: set<string>)
    ensures RewriteUrl(RewriteUrl(url, dir, files), dir, files) == RewriteUrl(url, dir, files)
  {
    var once := RewriteUrl(url, dir, files);
    ReplaceExtensionIdempotent(url);
    if once != url {
      assert once == ReplaceExtension(url);
      assert ReplaceExtension(once) == once;
    }
  }

  /** The attachment-URL filter is idempotent too. */
  lemma {:induction false} ServeWebpIdempotent(url: string, postId: int, site: Site, files: set<string>)
    ensures ServeWebp(ServeWebp(url, postId, site, files), postId, site, files) == ServeWebp(url, postId, site, files)
  {
    ReplaceExtensionIdempotent(url);
  }

  /**
   * A URL under the upload base (and holding the base URL nowhere else) maps
   * to the same relative path under the upload directory; it is rewritten to
   * `baseurl + rest` with `.webp` exactly when `basedir + rest` with `.webp` is on disk.
   */
  lemma {:induction false} UploadUrlRewrite(dir: UploadDir, rest: string, files: set<string>)
    requires dir.baseurl != ""
    requires forall i :: !OccursAt(rest, dir.baseurl, i)
    requires HasExtension(rest)
    ensures RewriteUrl(dir.baseurl + rest, dir, files) ==
      if dir.basedir + ReplaceExtension(rest) in files
      then dir.baseurl + ReplaceExtension(rest)
      else dir.baseurl + rest
  {
    ReplaceAllLeading(dir.baseurl, rest, dir.basedir);
    ReplaceExtensionAppend(dir.basedir, rest);
    ReplaceExtensionAppend(dir.baseurl, rest);
    ReplaceExtensionEndsInWebp(rest);
  }

  /**
   * After a conversion that wrote the artifact, the attachment URL of the
   * same attachment is served as `.webp`; once the artifact is gone, the same
   * call returns the original URL again.
   */
  lemma {:induction false} ServeAfterConversion(
    first: Conversion.Arg, second: Option<int>, site: Site, caps: Conversion.Capabilities,
    codec: Conversion.Codec, files: set<string>, url: string, postId: int)
    requires Conversion.NormaliseId(first, second) == Some(postId)
    requires Conversion.Written(Conversion.Plan(first, second, site, caps), codec) != {}
    ensures var after := files + Conversion.Written(Conversion.Plan(first, second, site, caps), codec);
      var artifact := ReplaceExtension(AttachedFile(site, Some(postId)));
      && ServeWebp(url, postId, site, after) == ReplaceExtension(url)
      && ServeWebp(url, postId, site, after - {artifact}) == url
  {
    var file := AttachedFile(site, Some(postId));
    assert Conversion.Resolve(first, second, site).isImage;
    assert file != "";
    Conversion.OnlyTheDestinationIsWritten(Conversion.Resolve(first, second, site), caps, codec);
    if HasExtension(file) {
      ReplaceExtensionEndsInWebp(file);
    }
    assert ReplaceExtension(file) != "";
  }
}
