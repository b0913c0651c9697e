/** The decisions of the Event Grid function `Thumbnail.Run`: where the
    thumbnail goes, whether the image is shrunk, and what is uploaded.
    Storage, Event Grid, environment variables and ImageSharp are outside
    the model; what they supply (the input stream's presence, the event's
    extension, the blob name, the URL's absolute path and container segment,
    the configured width and the decoded image's size) are parameters. */
module Thumbnail {
  import opened Wrappers
  import opened Text
  import opened Encoders
  import opened Sizing

  /** Exceptions that escape `Run`: logged and rethrown by its outer handler. */
  datatype Fault =
    | EmptyReplaceTarget   // `String.Replace` with an empty filename (`ArgumentException`)
    | ImageLoadFailed      // `Image.Load` could not decode the input
    | HeightOverflow       // `Convert.ToInt32` of a height outside the `int` range

  /** Width and height of the decoded, auto-oriented image. */
  datatype Size = Size(width: nat, height: nat)

  /** What one invocation of `Run` does. */
  datatype Outcome =
    | NoInput                                          // the input stream is null: nothing at all
    | NoEncoder                                        // "No encoder support" is logged; nothing uploaded
    | Rethrown(fault: Fault)                           // logged and rethrown; nothing uploaded
    | UploadResized(path: string, codec: Codec, width: int, height: int)
    | UploadOriginal(path: string, codec: Codec, size: Size)
  {
    /** Something is written to the thumbnail container. */
    predicate Uploads() {
      UploadResized? || UploadOriginal?
    }
  }

  /** The folder name `"w" + thumbnailWidth`. */
  function WidthFolder(t: int): (r: string)
    ensures |r| >= 2 && r[0] == 'w' && '/' !in r
    ensures r[1..] == IntToString(t)
  {
    "w" + IntToString(t)
  }

  /** Widths name their folders apart. */
  lemma WidthFolderInjective(t1: int, t2: int)
    ensures WidthFolder(t1) == WidthFolder(t2) <==> t1 == t2
  {
    if WidthFolder(t1) == WidthFolder(t2) {
      IntToStringInjective(t1, t2);
    }
  }

  /** Lines 102-103 of `Run`: the filename is the last `/`-segment of the blob
      name; each of its occurrences in the absolute path becomes
      `w<t>/<filename>`, and then every `/<container>/` is deleted. It fails
      exactly when the filename is empty, i.e. the blob name is empty or ends
      in `/` (`None` is the `ArgumentException` of `Replace`). */
  function DestinationPath(absolutePath: string, blobName: string, container: string, t: int): (r: Option<string>)
    ensures r.None? <==> blobName == [] || blobName[|blobName| - 1] == '/'
  {
    var filename := LastSegment(blobName, '/');
    match Replace(absolutePath, filename, WidthFolder(t) + "/" + filename)
    case None => None
    case Some(p) => Some(Replace(p, "/" + container + "/", "").value)
  }

  /** The path rewrite when the filename occurs only at the end of the
      absolute path `x + f` and the container prefix `k` only at the start of
      the rewritten path `k + rest`. */
  lemma RewriteOnce(x: string, f: string, k: string, rest: string, w: string)
    requires f != [] && k != []
    requires !Occurs(f, x + f[..|f| - 1])
    requires x + w == k + rest && !Occurs(k, rest)
    ensures Replace(x + f, f, w) == Some(x + w)
    ensures Replace(x + w, k, "") == Some(rest)
  {
    ReplaceTrailing(x, f, w);
    ReplaceLeading(rest, k, "");
    ReplaceAbsent(rest, k, "");
    assert "" + rest == rest;
  }

  /** A blob `d/f` in container `c`, with absolute path `/c/d/f`, goes to
      `d/w<t>/f` when `f` occurs in the path only as its last segment and
      `/c/` occurs in the rewritten path only at its start. */
  lemma DestinationInFolder(c: string, d: string, f: string, t: int)
    requires f != [] && '/' !in f
    requires !Occurs(f, "/" + c + "/" + d + "/" + f[..|f| - 1])
    requires !Occurs("/" + c + "/", d + "/" + WidthFolder(t) + "/" + f)
    ensures DestinationPath("/" + c + "/" + d + "/" + f, d + "/" + f, c, t)
      == Some(d + "/" + WidthFolder(t) + "/" + f)
  {
    var k := "/" + c + "/";
    var x := k + d + "/";
    var w := WidthFolder(t) + "/" + f;
    var rest := d + "/" + WidthFolder(t) + "/" + f;
    LastSegmentOfPath(d, f, '/');
    Regroup(k, d, WidthFolder(t), f);
    RewriteOnce(x, f, k, rest, w);
  }

  /** Moving the container prefix to the front of the rewritten path. */
  lemma Regroup(k: string, d: string, w: string, f: string)
    ensures (k + d + "/") + (w + "/" + f) == k + (d + "/" + w + "/" + f)
  {
  }

  /** A blob `f` at the container's root, with absolute path `/c/f`, goes to
      `w<t>/f` under the same conditions. */
  lemma DestinationAtRoot(c: string, f: string, t: int)
    requires f != [] && '/' !in f
    requires !Occurs(f, "/" + c + "/" + f[..|f| - 1])
    requires !Occurs("/" + c + "/", WidthFolder(t) + "/" + f)
    ensures DestinationPath("/" + c + "/" + f, f, c, t) == Some(WidthFolder(t) + "/" + f)
  {
    var k := "/" + c + "/";
    var w := WidthFolder(t) + "/" + f;
    LastSegmentOfPath([], f, '/');
    RewriteOnce(k, f, k, w, w);
  }

  /** In that situation two widths never share a destination. */
  lemma DestinationInjective(c: string, d: string, f: string, t1: int, t2: int)
    requires f != [] && '/' !in f
    requires !Occurs(f, "/" + c + "/" + d + "/" + f[..|f| - 1])
    requires !Occurs("/" + c + "/", d + "/" + WidthFolder(t1) + "/" + f)
    requires !Occurs("/" + c + "/", d + "/" + WidthFolder(t2) + "/" + f)
    ensures (DestinationPath("/" + c + "/" + d + "/" + f, d + "/" + f, c, t1)
             == DestinationPath("/" + c + "/" + d + "/" + f, d + "/" + f, c, t2)) <==> t1 == t2
  {
    DestinationInFolder(c, d, f, t1);
    DestinationInFolder(c, d, f, t2);
    var w1, w2 := WidthFolder(t1), WidthFolder(t2);
    if d + "/" + w1 + "/" + f == d + "/" + w2 + "/" + f {
      GroupTail(d + "/", w1, f);
      GroupTail(d + "/", w2, f);
      MiddleCancel(d + "/", w1, w2, "/" + f);
      WidthFolderInjective(t1, t2);
    }
  }

  /** Equal strings with equal ends have equal middles. */
  lemma MiddleCancel(a: string, x: string, y: string, b: string)
    requires a + x + b == a + y + b
    ensures x == y
  {
    assert |x| == |y|;
    assert x == (a + x + b)[|a|..|a| + |x|];
    assert y == (a + y + b)[|a|..|a| + |y|];
  }

  /** Regrouping `a + x + "/" + f`. */
  lemma GroupTail(a: string, x: string, f: string)
    ensures a + x + "/" + f == a + x + ("/" + f)
  {
  }

  /** `Run` (lines 81-158) as a choice of outcome. `inputPresent` is
      `input != null`; `image` is the size after `AutoOrient`, `None` when
      `Image.Load` throws. The width test of line 119 picks between the
      resized and the original upload; a `DivideByZeroException` from the
      height computation is caught and the original uploaded (lines 136-144).
      In the source the width and the image's sides are `Int32` values; the
      model does not bound them, so it also answers for inputs that cannot
      arise (its results for those are not claims about the source). */
  function Run(inputPresent: bool, extension: string, thumbnailWidth: int,
               absolutePath: string, blobName: string, container: string,
               image: Option<Size>): (o: Outcome)
    ensures o == NoInput <==> !inputPresent
    ensures o == NoEncoder <==> inputPresent && GetEncoder(extension) == None
    ensures o.Uploads() ==>
              GetEncoder(extension) == Some(o.codec) &&
              DestinationPath(absolutePath, blobName, container, thumbnailWidth) == Some(o.path)
    ensures o.UploadResized? ==>
              o.width == thumbnailWidth && image.Some? &&
              image.value.width > thumbnailWidth && InInt32(o.height)
    ensures o.UploadOriginal? ==> image == Some(o.size)
  {
    if !inputPresent then NoInput
    else
      match GetEncoder(extension)
      case None => NoEncoder
      case Some(codec) =>
        match DestinationPath(absolutePath, blobName, container, thumbnailWidth)
        case None => Rethrown(EmptyReplaceTarget)
        case Some(path) =>
          match image
          case None => Rethrown(ImageLoadFailed)
          case Some(size) =>
            if size.width > thumbnailWidth then
              match ScaledHeight(size.width, size.height, thumbnailWidth)
              case None => UploadOriginal(path, codec, size)
              case Some(h) =>
                if InInt32(h) then UploadResized(path, codec, thumbnailWidth, h)
                else Rethrown(HeightOverflow)
            else UploadOriginal(path, codec, size)
  }

  /** Without an encoder the image is never looked at and nothing is uploaded. */
  lemma NoEncoderIgnoresImage(extension: string, t: int, absolutePath: string, blobName: string,
                              container: string, image1: Option<Size>, image2: Option<Size>)
    requires GetEncoder(extension) == None
    ensures Run(true, extension, t, absolutePath, blobName, container, image1) == NoEncoder
    ensures Run(true, extension, t, absolutePath, blobName, container, image1)
      == Run(true, extension, t, absolutePath, blobName, container, image2)
  {
  }

  /** A blob name ending in `/` makes the path rewrite throw before the image
      is loaded: the fault is rethrown, whatever the image, and nothing is uploaded. */
  lemma EmptyFilenameRethrows(extension: string, t: int, absolutePath: string, blobName: string,
                              container: string, image: Option<Size>)
    requires GetEncoder(extension).Some?
    requires blobName == [] || blobName[|blobName| - 1] == '/'
    ensures Run(true, extension, t, absolutePath, blobName, container, image) == Rethrown(EmptyReplaceTarget)
  {
  }

  /** An image wider than a positive thumbnail width is shrunk to exactly that
      width; its height is the nearest integer to `h0 * t / w0` (half to
      even), never more than `h0`. */
  lemma WideImageIsShrunk(extension: string, t: int, absolutePath: string, blobName: string,
                          container: string, w0: nat, h0: nat)
    requires GetEncoder(extension).Some?
    requires DestinationPath(absolutePath, blobName, container, t).Some?
    requires h0 < 0x8000_0000
    requires 0 < t < w0
    ensures var o := Run(true, extension, t, absolutePath, blobName, container, Some(Size(w0, h0)));
      o.UploadResized? && o.width == t && 0 <= o.height <= h0 &&
      o.height == RoundHalfEven(h0 * t, w0) && 2 * Abs(o.height * w0 - h0 * t) <= w0
  {
    ScaledHeightShrinks(w0, h0, t);
  }

  /** An image no wider than the thumbnail width is uploaded as it is. */
  lemma NarrowImageIsKept(extension: string, t: int, absolutePath: string, blobName: string,
                          container: string, size: Size)
    requires GetEncoder(extension).Some?
    requires DestinationPath(absolutePath, blobName, container, t).Some?
    requires size.width <= t
    ensures Run(true, extension, t, absolutePath, blobName, container, Some(size))
      == UploadOriginal(DestinationPath(absolutePath, blobName, container, t).value,
                        GetEncoder(extension).value, size)
  {
  }

  /** With width 0 (an unset `THUMBNAIL_WIDTH` converts to 0) the decimal
      division throws, the exception is caught, and the original is uploaded
      to the `w0` folder. */
  lemma ZeroWidthUploadsOriginal(extension: string, absolutePath: string, blobName: string,
                                 container: string, size: Size)
    requires GetEncoder(extension).Some?
    requires DestinationPath(absolutePath, blobName, container, 0).Some?
    ensures Run(true, extension, 0, absolutePath, blobName, container, Some(size))
      == UploadOriginal(DestinationPath(absolutePath, blobName, container, 0).value,
                        GetEncoder(extension).value, size)
  {
  }

  /** A negative width is not rejected: the height turns negative, and for a
      large enough magnitude it leaves the `int` range and `Convert.ToInt32`
      throws. */
  lemma NegativeWidthOverflows(extension: string, absolutePath: string, blobName: string, container: string)
    requires GetEncoder(extension).Some?
    requires DestinationPath(absolutePath, blobName, container, -0x8000_0000).Some?
    ensures Run(true, extension, -0x8000_0000, absolutePath, blobName, container, Some(Size(1, 2)))
      == Rethrown(HeightOverflow)
  {
    RoundHalfEvenExact(-0x1_0000_0000, 1);
  }

  /** The folder for width 300 is `w300`. */
  lemma WidthFolder300()
    ensures WidthFolder(300) == "w300"
  {
    assert NatToString(3) == "3";
    assert NatToString(30) == "30";
    assert NatToString(300) == "300";
  }

  /** End to end: a `d/f` blob in container `c`, wider than a positive width
      `t`, is uploaded shrunk to `t` at `d/w<t>/f` with the rounded height. */
  lemma ThumbnailInFolder(extension: string, c: string, d: string, f: string, t: int, w0: nat, h0: nat)
    requires GetEncoder(extension).Some?
    requires f != [] && '/' !in f
    requires !Occurs(f, "/" + c + "/" + d + "/" + f[..|f| - 1])
    requires !Occurs("/" + c + "/", d + "/" + WidthFolder(t) + "/" + f)
    requires 0 < t < w0 && h0 < 0x8000_0000
    ensures Run(true, extension, t, "/" + c + "/" + d + "/" + f, d + "/" + f, c, Some(Size(w0, h0)))
      == UploadResized(d + "/" + WidthFolder(t) + "/" + f, GetEncoder(extension).value, t, RoundHalfEven(h0 * t, w0))
  {
    DestinationInFolder(c, d, f, t);
    WideImageIsShrunk(extension, t, "/" + c + "/" + d + "/" + f, d + "/" + f, c, w0, h0);
  }

  /** `photos/a.jpg` in container `uploads` goes to `photos/w300/a.jpg` for
      width 300. (The strings are parameters fixed by the precondition.) */
  lemma ScenarioPath(c: string, d: string, f: string)
    requires c == "uploads" && d == "photos" && f == "a.jpg"
    ensures DestinationPath("/" + c + "/" + d + "/" + f, d + "/" + f, c, 300) == Some(d + "/w300/" + f)
  {
    WidthFolder300();
    assert f[..4] == "a.jp" && f[4] == 'g';
    AbsentCharNoOccurrence(f, "/" + c + "/" + d + "/" + f[..4], 4);
    assert ("/" + c + "/")[1] == 'u';
    AbsentCharNoOccurrence("/" + c + "/", d + "/" + WidthFolder(300) + "/" + f, 1);
    DestinationInFolder(c, d, f, 300);
    InsertFolder(d, WidthFolder(300), f);
    assert "/" + WidthFolder(300) + "/" == "/w300/";
  }

  /** A 1200 x 800 `photos/a.jpg` in container `uploads`, with width 300,
      becomes a 300 x 200 JPEG at `photos/w300/a.jpg`. */
  lemma ScenarioJpegInFolder(extension: string, c: string, d: string, f: string)
    requires extension == ".jpg" && c == "uploads" && d == "photos" && f == "a.jpg"
    ensures Run(true, extension, 300, "/" + c + "/" + d + "/" + f, d + "/" + f, c, Some(Size(1200, 800)))
      == UploadResized(d + "/w300/" + f, Jpeg, 300, 200)
  {
    GetEncoderJpg();
    ScenarioPath(c, d, f);
    WideImageIsShrunk(extension, 300, "/" + c + "/" + d + "/" + f, d + "/" + f, c, 1200, 800);
    RoundHalfEvenExact(200, 1200);
  }

  /** `d + "/" + w + "/" + f` is `d`, then `/w/`, then `f`. */
  lemma InsertFolder(d: string, w: string, f: string)
    ensures d + "/" + w + "/" + f == d + ("/" + w + "/") + f
  {
  }

  /** A `.txt` blob has no encoder: nothing is uploaded. */
  lemma ScenarioText()
    ensures Run(true, ".txt", 300, "/docs/file.txt", "file.txt", "docs", Some(Size(10, 10))) == NoEncoder
  {
    WithoutAbsent("txt", '.');
    assert Without(".txt", '.') == "txt";
    LowerOfLowerCase("txt");
  }
}
