# CountObjects in Dafny

CountObjects counts the objects of a few fixed colours in one still image. It
converts the image to HSV. For each colour of a hard-coded catalog it thresholds
the image, detects blobs, draws a circle at every blob and records how many blobs
it found. Finally it shows the image under a title such as `DarkB=3,Light=1`.

This project models the logic the program itself contains:

- `HsvConversion`: `GetOpenCvHsvColor`. It maps "standard" HSV (hue 0..360,
  saturation and value 0..100) onto 0..255 with C# `int` arithmetic. The model
  keeps both the wrap-around of `*` and the truncation of `/`.
- `Catalog`: the `InterestingColor` record as a class. Its positional members are
  `const` fields and `BlobsFound` is a `var`. The module also holds the two-entry
  catalog and its range invariant.
- `Annotator`: the image, modelled as the list of `Cv2.Circle` calls drawn on it.
  It also holds the circle drawn for each keypoint and the inner drawing loop.
- `Summary`: the title `string.Join(',', … $"{Name}={BlobsFound}")`. A reader,
  `ParseTitle`, inverts it.
- `CountObjects`: the per-colour loop of `Main` and the whole run from the
  catalog to the title.
- `CSharp`: the C# and .NET behaviour these rely on:
  - 32-bit wrap-around, truncating `/` and the `(int)` cast of a float;
  - decimal formatting of an `int`;
  - `string.Join`, with a `Split` that inverts it.

The blob detector is an input to the model. `detected[i]` is the sequence of
keypoints that `SimpleBlobDetector.Detect` returns for catalog colour `i`.
Keypoint coordinates are `real`.

Two details of the code are worth stating:

- Blob centres are cast with `(int)`, which truncates toward zero. The model
  truncates too; it does not round.
- The catalog comment (Program.cs:31) says OpenCV's HSV channels run 0..255. The
  arithmetic maps hue 360 to 255, and the model keeps that arithmetic exactly.

## Model

| member | source | states |
|---|---|---|
| CSharp.Wrap32 | CountObjects/Program.cs:84 | the result of an unchecked `int` operation is an `int` congruent to the exact result modulo 2^32, and equals it when it fits |
| CSharp.TruncDiv | CountObjects/Program.cs:84 | `a / b` with `b > 0` is the quotient rounded toward zero: `q*b <= a < q*b+b` for `a >= 0` and `q*b-b < a <= q*b` for `a < 0` |
| CSharp.TruncDivMonotone | CountObjects/Program.cs:84 | truncating division by a positive constant is monotone in the dividend |
| CSharp.CastToInt | CountObjects/Program.cs:64 | `(int)x` truncates toward zero: the result is within 1 of `x`, on the zero side of it |
| CSharp.Mul32 | CountObjects/Program.cs:84 | the unchecked `int` product `h * 255`: equal to the exact product whenever that fits an `int`, otherwise the wrapped value of `Wrap32` |
| CSharp.NatToString | CountObjects/Program.cs:71 | the decimal form of a count is non-empty and holds only digits; it starts with `0` only for the number 0, whose form is exactly `"0"` |
| CSharp.IntToString | CountObjects/Program.cs:71 | the decimal form of an `int` holds only digits and `-`, and starts with `-` exactly when the number is negative |
| CSharp.NatToStringRoundTrip | CountObjects/Program.cs:71 | reading the digits of a natural number's decimal form gives the number back |
| CSharp.IntToStringRoundTrip | CountObjects/Program.cs:71 | parsing the decimal form of any `int` gives the `int` back |
| CSharp.Join | CountObjects/Program.cs:71 | the definition of `string.Join(sep, parts)`; its properties are stated by `SplitJoin`, `JoinSeparatorCount`, `JoinEnds` and `JoinNoStraySeparator` |
| CSharp.SplitJoin | CountObjects/Program.cs:71 | for a non-empty list of parts none of which contains `sep`, splitting `string.Join(sep, parts)` on `sep` gives back `parts` |
| CSharp.JoinSeparatorCount | CountObjects/Program.cs:71 | a join of n >= 1 parts without the separator holds exactly n-1 separators |
| CSharp.JoinEnds | CountObjects/Program.cs:71 | for a non-empty list of parts, the join starts with its first part and ends with its last part |
| CSharp.JoinNoStraySeparator | CountObjects/Program.cs:71 | when no part contains the separator and the first and last parts are non-empty, the join neither starts nor ends with the separator |
| HsvConversion.Scale | CountObjects/Program.cs:84 | the definition of one channel, `x * 255 / full` with C#'s wrapping `*` and truncating `/`; its properties are stated by `ScaleQuotient`, `ScaleInChannelRange` and `ScaleMonotone` |
| HsvConversion.GetOpenCvHsvColor | CountObjects/Program.cs:82-85 | the definition of the conversion, channel by channel with 360, 100, 100; its properties are stated by `ConvertIsFloorDivision`, `ConvertInChannelRange`, `ConvertEndpoints`, `ConvertMonotone` and `OverflowWraps` |
| HsvConversion.ScaleQuotient | CountObjects/Program.cs:84 | without overflow, each channel is the quotient of `x*255` by 360 or 100, rounded toward zero |
| HsvConversion.ConvertIsFloorDivision | CountObjects/Program.cs:82-85 | for non-negative inputs that do not overflow, the result is `(h*255/360, s*255/100, v*255/100)` with floor division |
| HsvConversion.ScaleInChannelRange | CountObjects/Program.cs:84 | an input in `0..full` gives a channel in `0..255` |
| HsvConversion.ConvertInChannelRange | CountObjects/Program.cs:82-85 | standard inputs (hue 0..360, saturation and value 0..100) give all three channels in 0..255 |
| HsvConversion.ConvertEndpoints | CountObjects/Program.cs:82-85 | (0,0,0) maps to (0,0,0) and (360,100,100) maps to (255,255,255) |
| HsvConversion.ScaleMonotone | CountObjects/Program.cs:84 | a larger input never gives a smaller channel while neither product overflows |
| HsvConversion.ConvertMonotone | CountObjects/Program.cs:82-85 | channel-wise smaller inputs give channel-wise smaller-or-equal outputs |
| HsvConversion.OverflowWraps | CountObjects/Program.cs:84 | hue 8421505 overflows `h*255` and wraps to a negative channel, below that of hue 0 |
| Catalog.InterestingColor.constructor | CountObjects/Program.cs:7-10 | a new record holds the given name, bounds and display colour, and `BlobsFound` starts at 0 |
| Catalog.InterestingColors | CountObjects/Program.cs:29-34 | the definition of the catalog literal, in source order; its properties are stated by `CatalogBounds`, `CatalogRangesOrdered` and `CatalogNamesPlain` |
| Catalog.CatalogBounds | CountObjects/Program.cs:29-34 | the converted bounds are DarkB (0,51,0)..(255,255,89) and Light (14,102,51)..(38,255,204) |
| Catalog.CatalogRangesOrdered | CountObjects/Program.cs:29-34 | every catalog entry's lower bound is at most its upper bound on every channel, by monotonicity of the conversion |
| Catalog.CatalogNamesPlain | CountObjects/Program.cs:32-33 | the catalog's names are distinct and hold neither `,` nor `=` |
| Catalog.NewInterestingColors | CountObjects/Program.cs:29-34 | the catalog array holds one distinct fresh record per catalog entry, in order, each with no blobs counted |
| Annotator.Image.constructor | CountObjects/Program.cs:36 | a freshly loaded image carries no circles yet |
| Annotator.Image.Circle | CountObjects/Program.cs:64 | drawing a circle appends exactly that circle to the image and changes nothing else |
| Annotator.MarkerFor | CountObjects/Program.cs:64 | a keypoint's circle has radius 10, thickness 1 and the colour given, and is centred on the keypoint's coordinates truncated toward zero |
| Annotator.MarkerCenterIsFloor | CountObjects/Program.cs:64 | for non-negative coordinates the circle's centre is their floor |
| Annotator.MarkersFor | CountObjects/Program.cs:62-65 | the definition of one colour's circles, one `MarkerFor` per keypoint in keypoint order; `DrawKeypoints` is proved to append exactly these |
| Annotator.DrawKeypoints | CountObjects/Program.cs:62-65 | the inner loop appends one circle per keypoint, in keypoint order, after whatever the image held |
| Annotator.AllMarkers | CountObjects/Program.cs:39-68 | the definition of all colours' circles, colour after colour; its properties are stated by `AllMarkersLength` and `AllMarkersAt`, and `ProcessColors` is proved to append exactly these |
| Annotator.AllMarkersLength | CountObjects/Program.cs:39-68 | the loop draws exactly as many circles as there are keypoints over all colours |
| Annotator.AllMarkersAt | CountObjects/Program.cs:39-68 | the j-th circle of colour i comes after all circles of earlier colours and is the circle for that colour's j-th keypoint, in its display colour |
| Summary.Entry | CountObjects/Program.cs:71 | the definition of `$"{Name}={BlobsFound}"`; its properties are stated by `EntryRoundTrip` |
| Summary.Entries | CountObjects/Program.cs:71 | the definition of the `Select` of entries: one entry per colour, in catalog order |
| Summary.Title | CountObjects/Program.cs:71 | the definition of the title, the entries joined by `,`; its properties are stated by `TitleRoundTrip`, `TitleCommaCount`, `TitleEnds`, `TitleNoStrayComma` and `ExampleTitle` |
| Summary.EntryRoundTrip | CountObjects/Program.cs:71 | `Name=count` reads back to the name and count when the name has no `=` |
| Summary.TitleRoundTrip | CountObjects/Program.cs:71 | for at least one colour, with no name holding `,` or `=`, the title reads back to every name and count, in catalog order |
| Summary.TitleCommaCount | CountObjects/Program.cs:71 | with n >= 1 names without commas the title holds exactly n-1 commas |
| Summary.CommaCountWithEquals | CountObjects/Program.cs:71 | a name holding `=` does not disturb the comma count: two entries give one comma |
| Summary.TitleEnds | CountObjects/Program.cs:71 | the title begins with the first colour's entry and ends with the last colour's entry |
| Summary.TitleNoStrayComma | CountObjects/Program.cs:71 | for at least one colour with comma-free names, the title neither starts nor ends with a comma |
| Summary.ExampleTitle | CountObjects/Program.cs:71 | one blob of each catalog colour gives the title `DarkB=1,Light=1` |
| CountObjects.Tallies | CountObjects/Program.cs:71 | the `Select` over the colour records: each record's name and current `BlobsFound`, one per record, in order; `Run` is proved to title the catalog's keypoint counts with it |
| CountObjects.ProcessColor | CountObjects/Program.cs:60-67 | one colour's pass sets its `BlobsFound` to the number of keypoints, appends their circles in the colour's display colour and changes nothing else |
| CountObjects.ProcessColors | CountObjects/Program.cs:39-68 | after the loop each colour's `BlobsFound` is its number of keypoints, and the image holds its earlier circles followed by all colours' circles in catalog order |
| CountObjects.Run | CountObjects/Program.cs:29-71 | from the catalog on, the image gains all colours' circles in catalog order, and the title reports each catalog colour's keypoint count |
| CountObjects.CatalogTitle | CountObjects/Program.cs:71 | the catalog's title always reads back to the catalog's names and counts and holds exactly one comma |
| CountObjects.OneBlobEach | CountObjects/Program.cs:62-71 | one keypoint per colour gives the title `DarkB=1,Light=1` and one circle per colour, in the colour's display colour |

## Left out

- The argument-count check, `File.Exists` and the console messages (Program.cs:16-26) are process and file-system I/O.
- Image loading (`new Mat(filePath, …)`) and `CvtColor(BGR2HSV)` (Program.cs:36-37) are foreign calls into OpenCV. The model does not represent pixels.
- `Cv2.InRange` (Program.cs:42) is a foreign call. The mask is not modelled; only the keypoints detected on it are.
- `SimpleBlobDetector` and its `Params` (Program.cs:49-60) are foreign calls. The keypoints per colour are an input of `ProcessColors` and `Run`. The detector's parameters (minimum distance 5, minimum area 5, colour filter 255) are not represented.
- Only a keypoint's centre `Pt` is represented. Its size, angle and response are not used by the program.
- Keypoint coordinates are `real`, not 32-bit floats. Rounding in single precision is not modelled.
- CastToInt: the `(int)` cast is modelled as plain truncation for every value. A float whose integral part does not fit an `int` has an unspecified result in C#, and the model does not capture that.
- Cv2.Circle rasterisation is not modelled: only the parameters of each call are recorded. A circle is as it is passed, not clipped to the image.
- The mask windows, the final window and `Cv2.WaitKey` (Program.cs:45-48, 72-75) are UI and blocking waits.
- An OpenCV `Scalar` has four values. `Bgr` keeps the three the program sets, because the fourth is always 0.
- IntToString renders a negative number with `-`. .NET takes the sign from the current culture, which the model does not represent. The counts the program formats are never negative.
- The lemmas about the conversion's bounds and monotonicity assume that `x * 255` fits a C# `int`. Beyond that the model computes the wrapped value, which `OverflowWraps` exhibits. The catalog's literal arguments are far inside that range.
