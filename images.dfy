/**
 * The cache-facing control flow of full-image and preview serving.
 *
 * The filesystem, the media-type guesser and the imaging library are given
 * as an `Env` value: which paths are regular files and their bytes, what the
 * guesser answers, which files the imaging library can open (and their size
 * and colour mode), and which JPEG bytes processing and encoding produce.  A
 * path missing from `files` is not a regular file, a path missing from
 * `guessed` is one the guesser returns None for, and a path missing from
 * `decoded` or `encoded` is an exception raised there.
 */
module Images {
  import opened Wrappers
  import opened LruCache

  const MaxCacheSizeMB: nat := 1024
  const MaxCacheSizeBytes: nat := MaxCacheSizeMB * 1024 * 1024
  /** Each of the two caches is evicted against half of the overall ceiling. */
  const CacheBudget: nat := MaxCacheSizeBytes / 2
  const OctetStream: string := "application/octet-stream"
  const Jpeg: string := "image/jpeg"
  /** The default bounding box of a preview. */
  const PreviewWidth: nat := 512
  const PreviewHeight: nat := 512

  datatype ImageInfo = ImageInfo(width: nat, height: nat, mode: string)

  /** How the colour mode is normalised before encoding. */
  datatype ColorStep =
    | FlattenWithAlphaMask   // RGBA pasted on white through its alpha band
    | FlattenWithoutMask     // palette pasted on white
    | ConvertToRgb           // any other non-RGB mode
    | KeepRgb

  datatype Plan = Plan(color: ColorStep, downscale: bool)

  datatype Env = Env(
    files: map<string, seq<byte>>,
    guessed: map<string, string>,
    decoded: map<string, ImageInfo>,
    encoded: map<(string, Plan, nat, nat), seq<byte>>)

  datatype Served = Served(mediaType: string, content: seq<byte>)

  datatype ImageError = NotFound

  function Guess(env: Env, path: string): Option<string>
  {
    if path in env.guessed then Some(env.guessed[path]) else None
  }

  /** The media type of a full image: the guess if it is an image type, else generic binary. */
  function MediaType(guess: Option<string>): (t: string)
    ensures "image/" <= t || t == OctetStream
    ensures guess.Some? && "image/" <= guess.value ==> t == guess.value
    ensures (guess.None? || !("image/" <= guess.value)) ==> t == OctetStream
  {
    if guess.None? || guess.value == "" || !("image/" <= guess.value) then OctetStream
    else guess.value
  }

  /** What the preview pipeline does to a decoded image inside a `maxWidth` x `maxHeight` box. */
  function PlanPreview(info: ImageInfo, maxWidth: nat, maxHeight: nat): (p: Plan)
    ensures p.downscale <==> info.width > maxWidth || info.height > maxHeight
    ensures !p.downscale ==> info.width <= maxWidth && info.height <= maxHeight
    ensures p.color == KeepRgb <==> info.mode == "RGB"
    ensures p.color.FlattenWithAlphaMask? || p.color.FlattenWithoutMask? <==> info.mode in {"RGBA", "P"}
  {
    var color :=
      if info.mode == "RGBA" then FlattenWithAlphaMask
      else if info.mode == "P" then FlattenWithoutMask
      else if info.mode != "RGB" then ConvertToRgb
      else KeepRgb;
    Plan(color, info.width > maxWidth || info.height > maxHeight)
  }

  /** The JPEG bytes of a preview, or None when opening, processing or encoding raises. */
  function Render(env: Env, path: string, maxWidth: nat, maxHeight: nat): (r: Option<seq<byte>>)
    ensures r.Some? <==> path in env.decoded
                         && (path, PlanPreview(env.decoded[path], maxWidth, maxHeight), maxWidth, maxHeight) in env.encoded
  {
    if path !in env.decoded then None
    else
      var plan := PlanPreview(env.decoded[path], maxWidth, maxHeight);
      var key := (path, plan, maxWidth, maxHeight);
      if key in env.encoded then Some(env.encoded[key]) else None
  }

  /** The server's two caches. */
  class Gallery {
    const images: Cache
    const previews: Cache

    /**
     * Both caches hold unique keys and stay within their budget, and every
     * cached preview is a JPEG.
     */
    ghost predicate Valid()
      reads this, images, previews
    {
      && images != previews
      && images.Valid() && previews.Valid()
      && Size(images.entries) <= CacheBudget
      && Size(previews.entries) <= CacheBudget
      && forall e :: e in previews.entries ==> e.mediaType == Jpeg
    }

    constructor ()
      ensures Valid()
      ensures images.entries == [] && previews.entries == []
    {
      images := new Cache();
      previews := new Cache();
    }

    /** `get_full_image(norm_path)` at loop time `now`. */
    method GetFullImage(env: Env, path: string, now: real) returns (r: Result<Served, ImageError>)
      requires Valid()
      modifies images
      ensures Valid()
      ensures var s := old(images.entries); var i := Find(s, path);
        0 <= i ==> r == Success(Served(s[i].mediaType, s[i].content)) && images.entries == Promoted(s, i)
      ensures Find(old(images.entries), path) < 0 && path !in env.files ==>
          r == Failure(NotFound) && images.entries == old(images.entries)
      ensures Find(old(images.entries), path) < 0 && path in env.files ==>
          var t := MediaType(Guess(env, path));
          && r == Success(Served(t, env.files[path]))
          && images.entries == Evicted(old(images.entries) + [Entry(path, t, env.files[path], now)], CacheBudget)
    {
      var hit := images.Contains(path);
      if hit {
        var item := images.Refresh(path);
        return Success(Served(item.mediaType, item.content));
      }
      if path !in env.files {
        return Failure(NotFound);
      }
      var mediaType := MediaType(Guess(env, path));
      var content := env.files[path];
      AssignedFacts(images.entries, Entry(path, mediaType, content, now));
      StoreAndEvict(images, Entry(path, mediaType, content, now), CacheBudget);
      r := Success(Served(mediaType, content));
    }

    /** `get_preview_image(norm_path, (maxWidth, maxHeight))` at loop time `now`. */
    method GetPreviewImage(env: Env, path: string, now: real,
                           maxWidth: nat := PreviewWidth, maxHeight: nat := PreviewHeight)
      returns (r: Result<Served, ImageError>)
      requires Valid()
      modifies images, previews
      ensures Valid()
      ensures r.Success? ==> r.value.mediaType == Jpeg
      ensures var s := old(previews.entries); var i := Find(s, path);
        0 <= i ==>
          && r == Success(Served(Jpeg, s[i].content))
          && previews.entries == Promoted(s, i)
          && images.entries == old(images.entries)
      ensures Find(old(previews.entries), path) < 0 && path !in env.files ==>
          && r == Failure(NotFound)
          && previews.entries == old(previews.entries) && images.entries == old(images.entries)
      ensures Find(old(previews.entries), path) < 0 && path in env.files ==>
          match Render(env, path, maxWidth, maxHeight)
          case Some(c) =>
            && r == Success(Served(Jpeg, c))
            && previews.entries == Evicted(old(previews.entries) + [Entry(path, Jpeg, c, now)], CacheBudget)
            && images.entries == old(images.entries)
          case None =>
            var full := old(images.entries); var k := Find(full, path);
            && previews.entries == old(previews.entries)
            && r == Success(Served(Jpeg, if 0 <= k then full[k].content else env.files[path]))
            && images.entries ==
                 if 0 <= k then Promoted(full, k)
                 else Evicted(full + [Entry(path, MediaType(Guess(env, path)), env.files[path], now)], CacheBudget)
    {
      var hit := previews.Contains(path);
      if hit {
        var item := previews.Refresh(path);
        assert item in previews.entries;
        return Success(Served(item.mediaType, item.content));
      }
      if path !in env.files {
        return Failure(NotFound);
      }
      var rendered := Render(env, path, maxWidth, maxHeight);
      if rendered.None? {
        var full := GetFullImage(env, path, now);
        match full {
          case Success(served) => return Success(Served(Jpeg, served.content));
          case Failure(e) => return Failure(e);
        }
      }
      var content := rendered.value;
      AssignedFacts(previews.entries, Entry(path, Jpeg, content, now));
      StoreAndEvict(previews, Entry(path, Jpeg, content, now), CacheBudget);
      r := Success(Served(Jpeg, content));
    }
  }
}
