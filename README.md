# Stupid Simple Image Converter, modelled in Dafny

The plugin converts every uploaded image attachment to WebP. It writes the
result to the attached file's path with the extension matched by `\.[^.]+$`
replaced by `.webp`. For an ordinary `photo.jpg` this is the `.webp` file
next to the original. It then serves that file instead of the original
wherever WordPress hands out the image's URL, if the file exists:
- the attachment URL;
- a rendered image's `src`;
- every entry of a responsive `srcset`.

This project models the plugin's core in `ssic.php`:
- the conversion hook `ssic_convert_to_webp`;
- the three serving filters `ssic_serve_webp`, `ssic_src_webp` and `ssic_srcset_webp`;
- the path rewrite `preg_replace('/\.[^.]+$/', '.webp', …)` that all of them share.

It proves what these promise about which file is written, which URL is
served, and what is left alone.

Modules, one per file:

- `Wrappers` (`wrappers.dfy`): `Option`, for PHP's `null` and `false`.
- `PhpStrings` (`php_strings.dfy`): the string built-ins the plugin uses.
  - a last-occurrence search;
  - ASCII `strtolower`;
  - `str_replace` with a single search string, which replaces every occurrence.
- `WebpPath` (`webp_path.dfy`): the path functions.
  - The rewrite `ReplaceExtension`, computed from the last dot. It is proved equal to what the pattern `\.[^.]+$` specifies (`ExtensionAt`).
  - `basename` and `pathinfo(…, PATHINFO_EXTENSION)`, with how they relate to that pattern.
- `WordPress` (`wordpress.dfy`): what the plugin reads from its host, as plain values.
  - the attached-file map, the image ids and the stored quality option;
  - the upload directory;
  - `file_exists`, as membership in a set of paths.
- `Conversion` (`conversion.dfy`): `ssic_convert_to_webp`.
  - `Plan` is the decision the procedure takes.
  - `Written` is the files that decision writes, given the codec's outcomes.
  - `Trace` is the codec calls it makes.
  - The class `MediaHost` holds the mutable state: files on disk, allocated GD images and calls made. Its method `ConvertToWebp` is the procedure, proved to change that state exactly as `Plan`, `Written` and `Trace` say.
- `Substitution` (`substitution.dfy`): the three serving filters.
  - `ssic_srcset_webp` is a method with a loop over the sources array.

Codec behaviour is not modelled. `Codec` says whether the Imagick write succeeded, whether the GD decoder returned an image and whether `imagewebp` wrote the file. `Capabilities` stands for the `class_exists` and `function_exists` probes.

The plugin keeps no converted marker and has no bulk backfill. It encodes
again even when the destination file already exists, and `Plan` does not take
the file set as an input.

Two consequences of the path rewrite are proved rather than assumed away:
- An image whose file has no match for `\.[^.]+$` has no dot, or a dot as
  its last character. WordPress can still accept it as an image by its MIME type.
  Its destination is the file itself, so a successful Imagick conversion
  writes WebP over the original (`UnmatchedFileIsOverwritten`). While that
  original exists, its URL is served rewritten, although no `.webp` file
  exists (`UnmatchedAttachmentRewritesUrl`).
- A dot in a directory name with none in the file name sends the
  destination into the parent directory: `/up/v1.2/photo` becomes
  `/up/v1.webp` (`DottedDirectoryLeavesDirectory`).

## Model

| member | source | states |
|---|---|---|
| PhpStrings.LastIndexOfIsLast | ssic.php:115 | the index found holds the character and no later position does; this is the "last dot" that the `$`-anchored pattern `\.[^.]+$` needs |
| PhpStrings.ToLower | ssic.php:108 | `strtolower` keeps the length and lower-cases exactly the ASCII letters, position by position |
| PhpStrings.ReplaceAllAbsent | ssic.php:160 | `str_replace` leaves a string without any occurrence of the search string unchanged |
| PhpStrings.ReplaceAllLeading | ssic.php:160 | a string made of the search string followed by a rest with no further occurrence becomes the replacement followed by that rest |
| WebpPath.ReplaceExtensionMatchesPattern | ssic.php:115 | where `\.[^.]+$` matches at `i`, the result is everything before `i` plus `.webp`; where it matches nowhere (no dot, or a dot as its last character), the string is returned unchanged |
| WebpPath.ReplaceExtensionEndsInWebp | ssic.php:115 | a rewritten string ends in `.webp`, and that `.webp` is itself where the pattern matches |
| WebpPath.ReplaceExtensionIdempotent | ssic.php:149-151 | rewriting twice gives the same result as rewriting once |
| WebpPath.ReplaceExtensionAppend | ssic.php:160-163 | a prefix in front of a string the pattern matches is carried through the rewrite unchanged |
| WebpPath.DottedDirectoryRewrite | ssic.php:115 | the pattern runs across `/`: `/a.d/file` becomes `/a.webp` |
| WebpPath.TrailingDotKept | ssic.php:115 | a trailing dot is no match: `file.` is left as it is |
| WebpPath.ReplaceExtensionWithoutMatch | ssic.php:115 | a path the pattern matches nowhere is its own rewrite |
| WebpPath.DottedDirectoryLeavesDirectory | ssic.php:115 | `/up/v1.2/photo` is rewritten to `/up/v1.webp`, a path in the parent directory |
| WebpPath.BasenameIsSlashFreeTail | ssic.php:108 | `basename` is the longest suffix of the path that holds no `/`: the whole path, or the part right after the last `/` |
| WebpPath.PathExtensionMatchesPattern | ssic.php:108-115 | a non-empty `pathinfo` extension is the text after the one dot where the rewrite pattern matches and contains no `/`; an empty extension means the pattern matches nowhere, or only at a dot before some `/` |
| WebpPath.DestinationIsSibling | ssic.php:108-115 | with a non-empty extension, the destination is the same path with that extension swapped for `webp`; it equals the source exactly when the extension already is `webp` |
| WebpPath.RewrittenExtensionIsWebp | ssic.php:108-115 | the rewritten path of any matched path has `pathinfo` extension `webp` |
| Conversion.ConventionsAgree | ssic.php:100-105 | the metadata-array convention `(metadata, id)` and the bare-id convention `(id, anything)` resolve to the same id and lead to the same conversion |
| Conversion.SkipTouchesNothing | ssic.php:108-112 | a lower-cased `webp` extension or a non-image skips everything: no codec call, no file written |
| Conversion.BackendByAvailability | ssic.php:117-126 | past the skip, Imagick is used exactly when its class exists, and GD exactly when Imagick is absent and `imagewebp` exists; with neither, nothing is called or written |
| Conversion.ImagickFailureIsFinal | ssic.php:117-126 | a failed Imagick conversion, whose exception is swallowed, writes nothing and is the only call made; GD is not tried |
| Conversion.GdDispatch | ssic.php:127-132 | under GD, `jpg`/`jpeg` picks the JPEG decoder, `png` the PNG decoder and `gif` the GIF decoder, each as an if-and-only-if; any other extension returns with no call and no write |
| Conversion.OnlyTheDestinationIsWritten | ssic.php:114-137 | at most the destination (the rewritten attached file) is written, and every encode call targets it at the configured quality |
| Conversion.UnmatchedFileIsOverwritten | ssic.php:107-122 | for an image whose file the pattern does not match, the destination is the file itself, and a successful Imagick conversion writes exactly that file |
| Conversion.WrittenExactlyWhen | ssic.php:110-139 | the destination is written exactly when the attachment is not skipped and either Imagick exists and writes, or only GD exists, knows the extension, decodes and encodes |
| Conversion.GdImageReleased | ssic.php:133-139 | a decoded GD image is encoded and then destroyed: decode first, encode second to last, destroy last |
| Conversion.ArtifactIsNotReconverted | ssic.php:107-112 | an attachment whose file is a rewritten `.webp` path is skipped |
| Conversion.MediaHost.ConvertToWebp | ssic.php:100-143 | returns its first argument on every path; the disk gains exactly `Written(Plan(…))`; the calls made are exactly `Trace(Plan(…))`; the set of allocated GD images is the same afterwards |
| Conversion.MediaHost.Encode | ssic.php:117-140 | the backend block changes the files and calls exactly as the decided step says, and leaves the set of allocated GD images as it was |
| Conversion.MediaHost.GdConvertImage | ssic.php:128-139 | decode; on success, palette conversion when available, then encode and destroy; the image handle it allocates is released again |
| Substitution.ServeWebpRule | ssic.php:147-154 | the attachment URL comes back unchanged when the rewritten attached file does not exist; when it does, the URL's matched extension becomes `.webp` |
| Substitution.ServeWebpIdempotent | ssic.php:147-154 | passing a URL through the attachment-URL filter twice equals passing it once |
| Substitution.UnmatchedAttachmentRewritesUrl | ssic.php:147-154 | when the attached file has no match for the pattern, the existence test checks that file itself, so while it exists the URL is rewritten, although no `.webp` file exists for it |
| Substitution.ServeAfterConversion | ssic.php:147-154 | after a conversion that wrote its artifact, the same attachment's URL is served rewritten; with that artifact removed, it is served unchanged |
| Substitution.RewriteUrlRule | ssic.php:160-163 | a URL is rewritten only when the rewrite of its `str_replace`d path exists, and then only its matched extension changes |
| Substitution.RewriteUrlIdempotent | ssic.php:160-163 | applying the `src`/`srcset` URL rewrite to its own output changes nothing |
| Substitution.UploadUrlRewrite | ssic.php:160-163 | a URL `baseurl + rest` becomes `baseurl + rest` with `.webp` exactly when `basedir + rest` with `.webp` is on disk |
| Substitution.SrcWebp | ssic.php:158-166 | `false` comes back as it is; otherwise only element `[0]`, the URL, changes, and only by the shared existence-tested rewrite |
| Substitution.SrcsetWebp | ssic.php:170-180 | same widths, in the same order; each entry's URL is rewritten by its own existence test; every other field of every entry is unchanged |
| Substitution.RewriteEntry | ssic.php:172-177 | one loop body: the entry's URL is replaced by its rewrite exactly when the rewrite of its mapped path exists, and nothing else changes |

## Left out

- The settings page, the admin menu, the settings-page HTML and the quality slider script (`ssic.php:18-93`). These are UI, not conversion or serving logic.
- Hook registration (`add_filter`/`add_action`). The model calls the hooked functions directly.
- The image codecs themselves. Decoding, palette conversion and WebP encoding are foreign library calls. Their outcomes are the `Codec` parameter, and the calls are recorded in `MediaHost.calls`.
- Conversion.Codec: an Imagick exception thrown after `writeImage` (from `clear` or `destroy`) is folded into "written". The lifetime of the Imagick object is not modelled.
- Conversion.MediaHost: `files` is a set of paths, so an encode over an existing file is not distinguished from a new file. `UnmatchedFileIsOverwritten` states when the destination is the original itself.
- Conversion.MediaHost: the PHP `@` warning suppression and any warnings the codecs print are not modelled.
- GD image resources are modelled as natural-number handles in a set, which records only the allocate/destroy pairing.
- WordPress.ConfiguredQuality: the `(int)` cast of the stored option string is not modelled. The option is taken to be stored as an integer already.
- WebpPath.Basename: PHP's `basename` strips trailing slashes first, and `pathinfo` has locale-dependent corner cases. Neither is modelled. A path ending in `/` has an empty basename and an empty extension here.
- PhpStrings.ToLower: lower-cases ASCII only. This matches `strtolower` in PHP 8.2 and later; older versions follow the C locale.
- The regex is modelled as "the last dot with at least one character after it". The PCRE rule that `$` may also match before a final newline is not modelled separately.
- The host's lookups are plain values read once per call:
  - `get_attached_file`, `wp_attachment_is_image` and `get_option` become a `Site`;
  - `wp_get_upload_dir` becomes an `UploadDir`;
  - the filesystem becomes a set of paths.
  Filesystem changes between two calls within one filter are not modelled.
- Substitution.SrcsetWebp: the PHP sources array is a sequence of width-keyed entries in array order. PHP keeps array keys distinct, so updating the entry at a width is updating the entry at its position. Fields of a source other than `url`, `descriptor` and `value` are not modelled.
- The filters' unused parameters (`$size`, `$icon`, `$size_array`, `$image_src`, `$image_meta`, `$attachment_id` in the `srcset` filter) are not modelled.
- Concurrent requests. The plugin has no locking, and the model is sequential.
- The "converted" marker and bulk backfill. Neither exists in this code.
