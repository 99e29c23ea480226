/**
 * What the plugin asks of its host, as plain values read at call time:
 * attachment lookups, the stored quality option, the upload directory and
 * the filesystem's existence test.
 */
module WordPress {
  import opened Wrappers

  /** Quality used when the `ssic_quality` option was never stored. */
  const DEFAULT_QUALITY: int := 85

  /** `wp_get_upload_dir()`: the public URL and the directory of the uploads folder. */
  datatype UploadDir = UploadDir(baseurl: string, basedir: string)

  /**
   * The host's content store and configuration: `get_attached_file` for every
   * attachment that has a file, the ids `wp_attachment_is_image` accepts, and
   * the `ssic_quality` option if it is stored.
   */
  datatype Site = Site(
    attachedFile: map<int, string>,
    imageIds: set<int>,
    qualityOption: Option<int>)

  /** `get_attached_file($id)`: the file path, or "" (PHP's `false`) for a missing or null id. */
  function AttachedFile(site: Site, id: Option<int>): string {
    if id.Some? && id.value in site.attachedFile then site.attachedFile[id.value] else ""
  }

  /**
   * `wp_attachment_is_image($id)`. WordPress falls back to the current global
   * post for a null id; the model treats a null id as not an image. An
   * attachment without an attached file is never an image: WordPress's check
   * returns false when `get_attached_file` is empty.
   */
  predicate IsImage(site: Site, id: Option<int>) {
    id.Some? && id.value in site.imageIds && AttachedFile(site, id) != ""
  }

  /** `(int) get_option('ssic_quality', 85)`. */
  function ConfiguredQuality(site: Site): int {
    site.qualityOption.GetOr(DEFAULT_QUALITY)
  }

  /** `file_exists($p)` against the set of files on disk; the empty path never exists. */
  predicate FileExists(files: set<string>, p: string) {
    p != "" && p in files
  }
}
