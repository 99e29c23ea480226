/**
 * `ssic_convert_to_webp`: the upload-time conversion of an image attachment
 * to WebP, written to the attached file's path with its matched extension
 * replaced by `.webp`, through Imagick when its class exists, otherwise
 * through GD when `imagewebp` exists, otherwise not at all.
 *
 * `Plan` is the decision the procedure takes from its inputs; `Written` and
 * `Trace` are what that decision does to the disk and which codec calls it
 * makes, given the codec's outcomes. `MediaHost.ConvertToWebp` is the
 * procedure itself, proved to do exactly that.
 */
module Conversion {
  import opened Wrappers
  import opened PhpStrings
  import opened WebpPath
  import opened WordPress

  /**
   * The first argument: the metadata array passed by
   * `wp_generate_attachment_metadata`, or the bare id passed by `add_attachment`.
   */
  datatype Arg = Metadata(meta: map<string, string>) | AttachmentId(id: int)

  /** Runtime capability probes, evaluated on every call. */
  datatype Capabilities = Capabilities(
    imagickClass: bool,       // class_exists('Imagick')
    imagewebpFunction: bool,  // function_exists('imagewebp')
    paletteFunction: bool)    // function_exists('imagepalettetotruecolor')

  /**
   * What the foreign codec calls do this time: whether the Imagick sequence
   * writes the file without throwing, whether the GD decoder returns an image,
   * and whether `imagewebp` writes the file.
   */
  datatype Codec = Codec(imagickWrites: bool, gdDecodes: bool, gdEncodes: bool)

  datatype Backend = Imagick | Gd | NoBackend

  datatype Decoder = Jpeg | Png | Gif

  /** The path the procedure takes. */
  datatype Step =
    | Skip                                                        // webp already, or not an image
    | NothingAvailable                                            // neither backend exists
    | ImagickConvert(source: string, dest: string, quality: int)
    | GdUnsupported(ext: string)                                  // GD's `default: return`
    | GdConvert(decoder: Decoder, source: string, dest: string, quality: int)

  /** A call into a codec library. */
  datatype Call =
    | ImagickWrite(source: string, dest: string, quality: int)   // new Imagick .. writeImage
    | GdDecode(decoder: Decoder, source: string)                 // imagecreatefrom{jpeg,png,gif}
    | GdPaletteToTruecolor
    | GdEncode(dest: string, quality: int)                       // imagewebp
    | GdDestroy                                                  // imagedestroy

  /** The attachment id: the second argument after a metadata array, otherwise the first. */
  function NormaliseId(first: Arg, second: Option<int>): (id: Option<int>)
    ensures first.Metadata? ==> id == second
    ensures first.AttachmentId? ==> id == Some(first.id)
  {
    match first
    case Metadata(_) => second
    case AttachmentId(i) => Some(i)
  }

  /** Imagick whenever its class exists; GD only without it and with `imagewebp`. */
  function SelectBackend(caps: Capabilities): Backend {
    if caps.imagickClass then Imagick
    else if caps.imagewebpFunction then Gd
    else NoBackend
  }

  /** GD's decoder for a lower-cased extension, if it has one. */
  function GdDecoder(ext: string): Option<Decoder> {
    if ext == "jpg" || ext == "jpeg" then Some(Jpeg)
    else if ext == "png" then Some(Png)
    else if ext == "gif" then Some(Gif)
    else None
  }

  /**
   * What the procedure learns about the attachment before it branches: the
   * normalised id, the attached file, its lower-cased `pathinfo` extension,
   * whether it is an image, the configured quality and the destination path.
   */
  datatype Attachment = Attachment(
    id: Option<int>, file: string, ext: string, isImage: bool, quality: int, dest: string)

  function Resolve(first: Arg, second: Option<int>, site: Site): Attachment {
    var id := NormaliseId(first, second);
    var file := AttachedFile(site, id);
    Attachment(id, file, ToLower(PathExtension(file)), IsImage(site, id), ConfiguredQuality(site),
               ReplaceExtension(file))
  }

  /** The branching of `ssic_convert_to_webp` once the attachment is resolved. */
  function Decide(a: Attachment, caps: Capabilities): Step {
    if a.ext == "webp" || !a.isImage then Skip
    else
      match SelectBackend(caps)
      case Imagick => ImagickConvert(a.file, a.dest, a.quality)
      case Gd =>
        (match GdDecoder(a.ext)
         case None => GdUnsupported(a.ext)
         case Some(d) => GdConvert(d, a.file, a.dest, a.quality))
      case NoBackend => NothingAvailable
  }

  /** The decision `ssic_convert_to_webp` takes for its arguments and host. */
  function Plan(first: Arg, second: Option<int>, site: Site, caps: Capabilities): Step {
    Decide(Resolve(first, second, site), caps)
  }

  /** The files a step writes, given the codec's outcomes. */
  function Written(step: Step, codec: Codec): set<string> {
    match step
    case ImagickConvert(_, dest, _) => if codec.imagickWrites then {dest} else {}
    case GdConvert(_, _, dest, _) => if codec.gdDecodes && codec.gdEncodes then {dest} else {}
    case _ => {}
  }

  /** The codec calls a step makes, in order, given the codec's outcomes. */
  function Trace(step: Step, caps: Capabilities, codec: Codec): seq<Call> {
    match step
    case ImagickConvert(source, dest, quality) => [ImagickWrite(source, dest, quality)]
    case GdConvert(decoder, source, dest, quality) =>
      [GdDecode(decoder, source)]
      + (if codec.gdDecodes
         then (if caps.paletteFunction then [GdPaletteToTruecolor] else [])
              + [GdEncode(dest, quality), GdDestroy]
         else [])
    case _ => []
  }

  /** The call encodes to `dest` at `quality`. */
  predicate EncodesTo(c: Call, dest: string, quality: int) {
    (c.ImagickWrite? && c.dest == dest && c.quality == quality)
    || (c.GdEncode? && c.dest == dest && c.quality == quality)
  }

  /**
   * A `webp` file or a non-image is skipped before anything else happens:
   * no codec is called and nothing is written.
   */
  lemma SkipTouchesNothing(a: Attachment, caps: Capabilities, codec: Codec)
    requires a.ext == "webp" || !a.isImage
    ensures Decide(a, caps) == Skip
    ensures Written(Decide(a, caps), codec) == {}
    ensures Trace(Decide(a, caps), caps, codec) == []
  {
  }

  /**
   * Past the skip, the backend is chosen by availability alone: Imagick exactly
   * when its class exists, GD exactly when only `imagewebp` exists, and with
   * neither nothing is called or written.
   */
  lemma BackendByAvailability(a: Attachment, caps: Capabilities, codec: Codec)
    requires a.ext != "webp" && a.isImage
    ensures var step := Decide(a, caps);
      && (step.ImagickConvert? <==> caps.imagickClass)
      && (step.GdConvert? || step.GdUnsupported? <==> !caps.imagickClass && caps.imagewebpFunction)
      && (step.NothingAvailable? <==> !caps.imagickClass && !caps.imagewebpFunction)
      && (step.NothingAvailable? ==> Written(step, codec) == {} && Trace(step, caps, codec) == [])
  {
  }

  /**
   * An Imagick failure is swallowed: nothing is written and GD is not tried,
   * even where `imagewebp` exists.
   */
  lemma ImagickFailureIsFinal(a: Attachment, caps: Capabilities, codec: Codec)
    requires Decide(a, caps).ImagickConvert?
    requires !codec.imagickWrites
    ensures Written(Decide(a, caps), codec) == {}
    ensures Trace(Decide(a, caps), caps, codec) == [ImagickWrite(a.file, a.dest, a.quality)]
  {
  }

  /**
   * Under GD, `jpg`/`jpeg`, `png` and `gif` pick their decoder and any other
   * extension returns before a decoder is called.
   */
  lemma GdDispatch(a: Attachment, caps: Capabilities, codec: Codec)
    requires a.ext != "webp" && a.isImage
    requires !caps.imagickClass && caps.imagewebpFunction
    ensures var step := Decide(a, caps);
      && (step == GdConvert(Jpeg, a.file, a.dest, a.quality) <==> a.ext == "jpg" || a.ext == "jpeg")
      && (step == GdConvert(Png, a.file, a.dest, a.quality) <==> a.ext == "png")
      && (step == GdConvert(Gif, a.file, a.dest, a.quality) <==> a.ext == "gif")
      && (step.GdUnsupported? <==> a.ext !in {"jpg", "jpeg", "png", "gif"})
      && (step.GdUnsupported? ==> Written(step, codec) == {} && Trace(step, caps, codec) == [])
  {
  }

  /**
   * Every encode and every written file targets the one destination, the
   * rewritten attached file, at the configured quality. That destination is
   * the `.webp` sibling only when the pattern matches the attached file; see
   * `UnmatchedFileIsOverwritten`.
   */
  lemma {:induction false} OnlyTheDestinationIsWritten(a: Attachment, caps: Capabilities, codec: Codec)
    ensures var step := Decide(a, caps);
      && Written(step, codec) <= {a.dest}
      && forall c :: c in Trace(step, caps, codec) && (c.ImagickWrite? || c.GdEncode?) ==>
           EncodesTo(c, a.dest, a.quality)
  {
    var step := Decide(a, caps);
    var t := Trace(step, caps, codec);
    if step.GdConvert? && codec.gdDecodes {
      var tail := [GdEncode(step.dest, step.quality), GdDestroy];
      assert t == [GdDecode(step.decoder, step.source)]
        + (if caps.paletteFunction then [GdPaletteToTruecolor] else []) + tail;
      forall c | c in t && (c.ImagickWrite? || c.GdEncode?)
        ensures EncodesTo(c, a.dest, a.quality)
      {
        assert c in tail;
      }
    }
  }

  /**
   * The destination is written exactly when the attachment is not skipped and
   * either Imagick exists and writes, or only GD exists, knows the extension,
   * decodes and encodes.
   */
  lemma WrittenExactlyWhen(a: Attachment, caps: Capabilities, codec: Codec)
    ensures Written(Decide(a, caps), codec) == {a.dest} <==>
      && a.ext != "webp" && a.isImage
      && (|| (caps.imagickClass && codec.imagickWrites)
          || (!caps.imagickClass && caps.imagewebpFunction && a.ext in {"jpg", "jpeg", "png", "gif"}
              && codec.gdDecodes && codec.gdEncodes))
  {
  }

  /**
   * A decoded GD image is always destroyed: the decode comes first and the
   * destroy last, after the encode.
   */
  lemma GdImageReleased(a: Attachment, caps: Capabilities, codec: Codec)
    requires Decide(a, caps).GdConvert? && codec.gdDecodes
    ensures var t := Trace(Decide(a, caps), caps, codec);
      && |t| >= 3 && t[0].GdDecode? && t[|t| - 2] == GdEncode(a.dest, a.quality) && t[|t| - 1] == GdDestroy
  {
  }

  /**
   * A `.webp` artifact attached as an attachment of its own is never converted
   * again: its extension is `webp`, so the procedure skips it.
   */
  lemma {:induction false} ArtifactIsNotReconverted(original: string, first: Arg, second: Option<int>, site: Site, caps: Capabilities)
    requires HasExtension(original)
    requires AttachedFile(site, NormaliseId(first, second)) == ReplaceExtension(original)
    ensures Plan(first, second, site, caps) == Skip
  {
    RewrittenExtensionIsWebp(original);
    assert ToLower("webp") == "webp";
    assert Resolve(first, second, site).ext == "webp";
  }

  /**
   * Both hook conventions reach the same conversion: the metadata array with
   * the id from `wp_generate_attachment_metadata`, and the bare id from
   * `add_attachment`, whatever second argument accompanies it.
   */
  lemma ConventionsAgree(meta: map<string, string>, id: int, other: Option<int>, site: Site, caps: Capabilities)
    ensures Plan(Metadata(meta), Some(id), site, caps) == Plan(AttachmentId(id), other, site, caps)
    ensures Resolve(Metadata(meta), Some(id), site).id == Some(id)
  {
    var viaMetadata := NormaliseId(Metadata(meta), Some(id));
    assert viaMetadata == NormaliseId(AttachmentId(id), other) == Some(id);
    assert Resolve(Metadata(meta), Some(id), site) == Resolve(AttachmentId(id), other, site);
  }

  /**
   * An image whose attached file the pattern does not match (no dot, or a
   * dot as its last character) has itself as destination: a successful Imagick
   * conversion writes WebP data over the original file.
   */
  lemma {:induction false} UnmatchedFileIsOverwritten(first: Arg, second: Option<int>, site: Site, caps: Capabilities, codec: Codec)
    requires Resolve(first, second, site).isImage
    requires !HasExtension(Resolve(first, second, site).file)
    requires caps.imagickClass && codec.imagickWrites
    ensures var a := Resolve(first, second, site);
      && a.dest == a.file
      && Written(Plan(first, second, site, caps), codec) == {a.file}
  {
    var a := Resolve(first, second, site);
    ReplaceExtensionWithoutMatch(a.file);
    UnmatchedExtensionIsEmpty(a.file);
  }

  /** A file the pattern does not match has an empty lower-cased `pathinfo` extension. */
  lemma UnmatchedExtensionIsEmpty(file: string)
    requires !HasExtension(file)
    ensures ToLower(PathExtension(file)) == ""
  {
    PathExtensionMatchesPattern(file);
  }

  /**
   * The host's mutable state as `ssic_convert_to_webp` sees it: the files on
   * disk, the GD image resources currently allocated, and the codec calls made.
   */
  class MediaHost {
    var files: set<string>
    var gdImages: set<nat>
    var nextImage: nat
    var calls: seq<Call>

    /** Every allocated image has a handle below the next one to be issued. */
    ghost predicate Valid()
      reads this`gdImages, this`nextImage
    {
      forall h :: h in gdImages ==> h < nextImage
    }

    constructor (onDisk: set<string>)
      ensures Valid()
      ensures files == onDisk && gdImages == {} && calls == []
    {
      files := onDisk;
      gdImages := {};
      nextImage := 0;
      calls := [];
    }

    /**
     * `ssic_convert_to_webp($first, $second)`: returns its first argument on
     * every path; the disk gains exactly what `Plan` writes, the calls made are
     * `Plan`'s trace, and no GD image is left allocated.
     */
    method ConvertToWebp(first: Arg, second: Option<int>, site: Site, caps: Capabilities, codec: Codec)
      returns (r: Arg)
      requires Valid()
      modifies this
      ensures Valid()
      ensures r == first
      ensures files == old(files) + Written(Plan(first, second, site, caps), codec)
      ensures calls == old(calls) + Trace(Plan(first, second, site, caps), caps, codec)
      ensures gdImages == old(gdImages)
    {
      var a := Resolve(first, second, site);
      if a.ext == "webp" || !a.isImage {
        return first;
      }
      Encode(a, caps, codec);
      return first;
    }

    /**
     * The backend block: Imagick when its class exists, otherwise GD when
     * `imagewebp` exists and the extension has a decoder, otherwise nothing.
     */
    method Encode(a: Attachment, caps: Capabilities, codec: Codec)
      requires Valid()
      requires a.ext != "webp" && a.isImage
      modifies this
      ensures Valid()
      ensures files == old(files) + Written(Decide(a, caps), codec)
      ensures calls == old(calls) + Trace(Decide(a, caps), caps, codec)
      ensures gdImages == old(gdImages)
    {
      if caps.imagickClass {
        calls := calls + [ImagickWrite(a.file, a.dest, a.quality)];
        if codec.imagickWrites {
          files := files + {a.dest};
        }
      } else if caps.imagewebpFunction {
        var decoder := GdDecoder(a.ext);
        if decoder.Some? {
          GdConvertImage(decoder.value, a.file, a.dest, a.quality, caps, codec);
        }
      }
    }

    /**
     * The GD branch once a decoder is known: decode, convert a palette image
     * to truecolor when that function exists, encode, and destroy the image.
     */
    method GdConvertImage(decoder: Decoder, file: string, destination: string, quality: int,
                          caps: Capabilities, codec: Codec)
      requires Valid()
      modifies this
      ensures Valid()
      ensures files == old(files) + Written(GdConvert(decoder, file, destination, quality), codec)
      ensures calls == old(calls) + Trace(GdConvert(decoder, file, destination, quality), caps, codec)
      ensures gdImages == old(gdImages)
    {
      calls := calls + [GdDecode(decoder, file)];
      if codec.gdDecodes {
        var image := nextImage;
        assert image !in gdImages;
        nextImage := nextImage + 1;
        gdImages := gdImages + {image};
        if caps.paletteFunction {
          calls := calls + [GdPaletteToTruecolor];
        }
        ghost var converted := calls;
        calls := calls + [GdEncode(destination, quality)];
        if codec.gdEncodes {
          files := files + {destination};
        }
        calls := calls + [GdDestroy];
        assert calls == converted + [GdEncode(destination, quality), GdDestroy];
        gdImages := gdImages - {image};
      }
    }
  }
}
