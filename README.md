# Thumbnail: a Dafny model of the image-thumbnail function

The repository is an Azure Function, `ImageFunctions/Thumbnail.cs`. An Event
Grid "blob created" event triggers it. It reads the new image and works out
three things:

- which encoder to use, from the blob's extension: PNG, JPEG, GIF or none;
- where the thumbnail goes: the blob's path with a `w<width>` folder
  inserted before the filename and the container segment removed;
- how large the thumbnail is: the configured width, and a height scaled
  by the same ratio and rounded.

It then uploads the thumbnail, or the original image when that is already
narrow enough.

This project models those decisions as pure functions, because the source
has no loops and no mutable state of its own. It proves what they
guarantee. There are five modules:

- `Wrappers`: `Option`, standing for a null reference or a thrown
  exception.
- `Text`: the .NET string operations the function relies on. These are
  ordinal `String.Replace` (left-to-right, non-overlapping, throws on an
  empty target), `Split('/')` and its last segment, ASCII `ToLower`, and
  `Int32.ToString`.
- `Encoders`: `GetEncoder`. Every dot is stripped. Then comes the case-insensitive
  unanchored regular expression `gif|png|jpe?g`, then the `switch` on the
  lower-cased name.
- `Sizing`: the height arithmetic. `Run` uses decimal division, modelled as
  exact fractions, and `Math.Round` (round half to even). `saveImage` uses
  truncating `int` division.
- `Thumbnail`: the destination path rewrite and `Run`. `Run` is a function
  from its inputs to an `Outcome`: nothing to do, no encoder, an exception
  rethrown, the resized image uploaded, or the original uploaded.

Some of the source's behaviour is worth stating plainly:

- There is one configured width, `THUMBNAIL_WIDTH`, and one thumbnail per
  event.
- An image no wider than the width is uploaded as it is. The source never
  upscales.
- The zero divisor is not prevented. A `DivideByZeroException` in the
  height computation (width 0, or a zero-width image with a negative
  width) is caught, and the original is uploaded to the `w<width>`
  folder.
- The only path error is the `ArgumentException` that `String.Replace`
  throws when the filename is empty. The blob name is then empty or ends
  in `/`. The outer handler rethrows it, so nothing is uploaded.
- The width is not checked to be positive. A negative width reaches the
  height computation. The height is zero or negative, and it overflows `int` for a
  large enough magnitude.
- The destination path is injective in the width only under side
  conditions: the filename must occur in the absolute path only as its
  last segment, and `/<container>/` only at the start of the rewritten
  path. `String.Replace` rewrites every occurrence, so without these
  conditions the path rewrite can do more than insert one folder.

## Model

| member | source | states |
|---|---|---|
| Text.Replace | ImageFunctions/Thumbnail.cs:103 | `String.Replace` fails exactly when the target is empty (the `ArgumentException`), otherwise yields the left-to-right replacement |
| Text.ReplaceAbsent | ImageFunctions/Thumbnail.cs:103 | replacing a target that does not occur leaves the string unchanged |
| Text.ReplaceSelf | ImageFunctions/Thumbnail.cs:103 | replacing a target by itself leaves the string unchanged |
| Text.ReplaceLeading | ImageFunctions/Thumbnail.cs:103 | a target at the start is replaced and the scan continues after it |
| Text.ReplaceTrailing | ImageFunctions/Thumbnail.cs:103 | a target that occurs only at the very end is replaced once, at the end, and nothing else changes |
| Text.OccursSomewhere | ImageFunctions/Thumbnail.cs:103 | the recursive occurrence test agrees with "some index starts a copy of the target" |
| Text.ReplaceCharByEmpty | ImageFunctions/Thumbnail.cs:47 | replacing a one-character string by `""` deletes every copy of that character |
| Text.Without | ImageFunctions/Thumbnail.cs:47 | the result is no longer than the input and holds exactly the input's characters other than the deleted one |
| Text.Split | ImageFunctions/Thumbnail.cs:102 | `Split` yields at least one piece and no piece contains the separator |
| Text.JoinSplit | ImageFunctions/Thumbnail.cs:102 | joining the pieces of `Split` with the separator gives the string back |
| Text.SplitJoin | ImageFunctions/Thumbnail.cs:102 | splitting a join of separator-free pieces gives the pieces back |
| Text.LastSegment | ImageFunctions/Thumbnail.cs:102 | the last piece of `Split` is a separator-free suffix, preceded by the separator when shorter than the string, and empty exactly when the string is empty or ends in the separator |
| Text.LastSegmentOfPath | ImageFunctions/Thumbnail.cs:102 | the filename of `d/f` and of `f` is `f` |
| Text.Lower | ImageFunctions/Thumbnail.cs:53 | `ToLower` keeps the length, maps each character by its ASCII lower case, and leaves no capital letter |
| Text.LowerOfLowerCase | ImageFunctions/Thumbnail.cs:53 | `ToLower` of a string without capitals is that string |
| Text.IntToString | ImageFunctions/Thumbnail.cs:103 | the decimal numeral of an `int` is non-empty and contains no `/` |
| Text.ParseIntToString | ImageFunctions/Thumbnail.cs:103 | reading the numeral back gives the integer |
| Text.IntToStringInjective | ImageFunctions/Thumbnail.cs:103 | two integers have the same numeral exactly when they are equal |
| Encoders.StripDots | ImageFunctions/Thumbnail.cs:47 | the stripped extension is the input with every `.` deleted and contains no `.` |
| Encoders.IsMatchSomewhere | ImageFunctions/Thumbnail.cs:49 | the unanchored regular expression matches exactly when some position starts `gif`, `png`, `jpg` or `jpeg`, ignoring case |
| Encoders.SelectByName | ImageFunctions/Thumbnail.cs:53-69 | the `switch` picks PNG for `png`, JPEG for `jpg` or `jpeg`, GIF for `gif` (each an if-and-only-if), and nothing otherwise |
| Encoders.GetEncoder | ImageFunctions/Thumbnail.cs:43-73 | the encoder is PNG, JPEG or GIF exactly when the extension, once its dots are deleted and it is lower-cased, is `png`, `jpg`/`jpeg` or `gif`; `null` exactly for every other extension |
| Encoders.PrefilterRedundant | ImageFunctions/Thumbnail.cs:49-69 | every name the `switch` accepts passes the regular expression, so the prefilter never changes the result |
| Encoders.MatchesOwnLowerCase | ImageFunctions/Thumbnail.cs:49 | a case-insensitive match of a string against its own lower case succeeds |
| Encoders.PrefilterAdmitsMore | ImageFunctions/Thumbnail.cs:49-69 | `pngx` and `agif` pass the regular expression but get no encoder |
| Encoders.GetEncoderUpperPng | ImageFunctions/Thumbnail.cs:47-57 | `.PNG` selects the PNG encoder |
| Encoders.GetEncoderJpg | ImageFunctions/Thumbnail.cs:47-60 | `.jpg` selects the JPEG encoder |
| Encoders.GetEncoderDottedGif | ImageFunctions/Thumbnail.cs:47-66 | `.g.i.f` selects the GIF encoder, because every dot is removed |
| Encoders.GetEncoderEmpty | ImageFunctions/Thumbnail.cs:49-51 | an empty extension gets no encoder |
| Sizing.FromInt | ImageFunctions/Thumbnail.cs:121 | the `(decimal)` widening of an integer is the same number as a fraction |
| Sizing.Divide | ImageFunctions/Thumbnail.cs:121 | decimal division throws exactly for a zero divisor; otherwise the quotient times the divisor is the dividend |
| Sizing.RoundHalfEven | ImageFunctions/Thumbnail.cs:122 | `Math.Round` gives an integer within half a step of the quotient, and the even one at a tie |
| Sizing.RoundHalfEvenUnique | ImageFunctions/Thumbnail.cs:122 | any integer with those two properties is the rounded value |
| Sizing.RoundHalfEvenWithin | ImageFunctions/Thumbnail.cs:122 | a quotient in `[0, m]` rounds into `[0, m]` |
| Sizing.RoundHalfEvenExact | ImageFunctions/Thumbnail.cs:122 | an integer quotient rounds to itself |
| Sizing.ScaledHeight | ImageFunctions/Thumbnail.cs:121-122 | the height computation throws exactly when the width or the image width is 0; for a positive image width it is `h0 * t / w0` rounded half to even |
| Sizing.ScaledHeightShrinks | ImageFunctions/Thumbnail.cs:119-122 | for `0 < t < w0` the height lies in `[0, h0]` and keeps the aspect ratio to within half a pixel |
| Sizing.ScaledHeightAtSameWidth | ImageFunctions/Thumbnail.cs:121-122 | at the image's own width the height is unchanged |
| Sizing.TruncDiv | ImageFunctions/Thumbnail.cs:166 | C# `int` division truncates toward zero: magnitude bounds and the sign of the quotient |
| Sizing.SaveImageHeight | ImageFunctions/Thumbnail.cs:166-167 | `saveImage` throws exactly when the width is 0 or wider than the image; otherwise the height is `h0 / (w0 / width)` in truncating `int` division (negated for a negative width), and for a positive width it times the divisor does not exceed `h0` |
| Sizing.SaveImageHeightNotBelowRatio | ImageFunctions/Thumbnail.cs:166-167 | the truncated divisor only ever makes the height too large, never smaller than `h0 * width / w0` |
| Sizing.SaveImageHeightDrifts | ImageFunctions/Thumbnail.cs:166-167 | a 1999 x 1000 image at width 1000 keeps height 1000 in `saveImage` where `Run` computes 500 |
| Thumbnail.WidthFolder | ImageFunctions/Thumbnail.cs:103 | the folder `"w" + thumbnailWidth` is `w` followed by the width's decimal numeral, and contains no `/` |
| Thumbnail.WidthFolderInjective | ImageFunctions/Thumbnail.cs:103 | two widths name the same folder exactly when they are equal |
| Thumbnail.WidthFolder300 | ImageFunctions/Thumbnail.cs:103 | width 300 names the folder `w300` |
| Thumbnail.DestinationPath | ImageFunctions/Thumbnail.cs:102-103 | the path rewrite throws exactly when the blob name is empty or ends in `/` (an empty filename) |
| Thumbnail.RewriteOnce | ImageFunctions/Thumbnail.cs:103 | when the filename occurs only at the end of the path and the container prefix only at the start, each `Replace` acts once, as intended |
| Thumbnail.DestinationInFolder | ImageFunctions/Thumbnail.cs:102-103 | under those conditions blob `d/f` at `/c/d/f` goes to `d/w<t>/f` |
| Thumbnail.DestinationAtRoot | ImageFunctions/Thumbnail.cs:102-103 | under those conditions blob `f` at `/c/f` goes to `w<t>/f` |
| Thumbnail.DestinationInjective | ImageFunctions/Thumbnail.cs:102-103 | under those conditions two widths give the same destination exactly when they are equal |
| Thumbnail.Run | ImageFunctions/Thumbnail.cs:81-158 | nothing happens exactly when the input is null; "no encoder" exactly when the input is present and `GetEncoder` is null; every upload uses `GetEncoder`'s codec and the rewritten path; a resized upload has the configured width, an image wider than it and an `int` height; an original upload carries the decoded image's size |
| Thumbnail.NoEncoderIgnoresImage | ImageFunctions/Thumbnail.cs:89-151 | without an encoder the outcome is "no encoder" whatever the image |
| Thumbnail.EmptyFilenameRethrows | ImageFunctions/Thumbnail.cs:102-112 | an empty filename makes the rewrite throw before the image is loaded; the fault is rethrown and nothing is uploaded |
| Thumbnail.WideImageIsShrunk | ImageFunctions/Thumbnail.cs:119-127 | an image wider than a positive width is uploaded at exactly that width, with the rounded height, which lies in `[0, h0]` and keeps the ratio to within half a pixel |
| Thumbnail.NarrowImageIsKept | ImageFunctions/Thumbnail.cs:129-134 | an image no wider than the width is uploaded unchanged |
| Thumbnail.ZeroWidthUploadsOriginal | ImageFunctions/Thumbnail.cs:121-144 | width 0 makes the decimal division throw; the exception is caught and the original uploaded |
| Thumbnail.NegativeWidthOverflows | ImageFunctions/Thumbnail.cs:119-122 | width `-2^31` with a 1 x 2 image produces a height outside `int`, and `Convert.ToInt32`'s exception is rethrown |
| Thumbnail.ThumbnailInFolder | ImageFunctions/Thumbnail.cs:102-127 | end to end: a `d/f` blob wider than `t` is uploaded shrunk to `t` at `d/w<t>/f` with the rounded height |
| Thumbnail.ScenarioPath | ImageFunctions/Thumbnail.cs:102-103 | `photos/a.jpg` in container `uploads` goes to `photos/w300/a.jpg` for width 300 |
| Thumbnail.ScenarioJpegInFolder | ImageFunctions/Thumbnail.cs:86-127 | a 1200 x 800 `photos/a.jpg` at width 300 becomes a 300 x 200 JPEG at `photos/w300/a.jpg` |
| Thumbnail.ScenarioText | ImageFunctions/Thumbnail.cs:89-151 | a `.txt` blob gets no encoder and nothing is uploaded |

## Left out

- Storage, Event Grid and logging calls are left out. These are `BlobServiceClient`, `BlobClient`, `UploadAsync`, the deserialisation of the event payload and `LogInformation`. An upload is an `Outcome` value, and a failed upload is not modelled.
- `GetBlobNameFromUrl`, `Uri.AbsolutePath`, `AbsoluteUri.Split('/')[3]` and `Path.GetExtension` are left out. `Run` takes their results as parameters: the blob name, the absolute path, the container segment and the extension. The storage client URL-decodes the blob name, while `AbsolutePath` stays escaped; the model cannot see that difference, so it takes the two as they are given.
- Of the environment variables only `THUMBNAIL_WIDTH` is a parameter: an `int`, where an unset variable converts to 0. `THUMBNAIL_CONTAINER_NAME` (the container the thumbnail is written to) and `AzureWebJobsStorage` (the connection string) are left out, and an `Outcome` records only the path inside that container, not the container itself. The text-to-`int` parsing of `Convert.ToInt32`, including its exception for non-numeric text, is not modelled.
- ImageSharp's `Image.Load`, `AutoOrient`, `Resize` and the encoders are left out. The decoded size is a parameter, `None` when decoding fails. The second `AutoOrient` at line 124 is taken to change nothing. `Resize` with a height of 0, or with a negative width, is not modelled.
- `saveImage`'s I/O is left out: the load, resize, save and upload. The unused method is modelled only through its height computation, `Sizing.SaveImageHeight`.
- Sizing.ScaledHeight: computes with exact fractions, not `System.Decimal`'s 28-29 significant digits. When the two decimal quotients get rounded, a value near a half-way point may round the other way in the source.
- Text.Lower: uses ASCII case mapping only; culture-sensitive `ToLower` and the regular expression's culture-aware case folding of non-ASCII letters are not modelled.
- Text.IntToString: writes a negative width with `-`; the culture-dependent negative sign that `"w" + thumbnailWidth` uses under a non-invariant culture is not modelled.
- Concurrency, `async` and stream positioning are left out. They do not affect the decisions.

## Findings

| source | as written | input that shows it | evidently intended | confidence | as-written member | corrected member |
|---|---|---|---|---|---|---|
| ImageFunctions/Thumbnail.cs:166-167 | `saveImage` divides the image width by the target width in `int`, so the divisor is truncated before the height is divided by it | a 1999 x 1000 image at width 1000: divisor 1, height 1000 instead of 500 | the real-valued ratio that `Run` uses at lines 121-122, giving a height within half a pixel of `h0 * width / w0` | not executed | Sizing.SaveImageHeightDrifts | Sizing.ScaledHeightShrinks |
