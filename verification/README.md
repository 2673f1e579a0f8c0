# Wave tracker: buoy polling and sprite files, modelled in Dafny

The wave tracker drives an LED matrix. Two Python scripts feed it, and this project models their logic.

**Buoy poller (`buoys.py`).** It downloads the five-day NOAA data file of each configured buoy station and parses the file into `Observations`, newest first. A station's stored observations are replaced when nothing is stored yet or the fresh set is strictly newer. Then one message line is written per station that holds a non-empty set. Each line is prefixed by `+` when the wave height rose or held and by `-` when it fell.

**Sprite rasterisers (`rasterize.py` and `img/rasterize.py`).** They render every frame group of an SVG, which yields a sequence of RGBA images. The images are written as a sprite file with this layout:

- a frame-count byte;
- per frame, a width byte and a height byte;
- then the R, G and B bytes of every pixel, rows top to bottom and each row left to right. Alpha is dropped.

The modules follow the program:

- `Wrappers` holds `Option` and `Result`.
- `Sequences` holds the order-preserving selection (`FilterMap`) behind both the row filter and the line choice. It also proves that selection equivalent to an index-level description in both directions.
- `Buoys` holds the records and the `Observations` queries.
- `BuoyParsing` holds the column lookup, the range-checked field parsing and `parse_observations`.
- `BuoyStations` holds the replacement rule, the polling round and the message lines.
- `SpriteFormat` holds the byte layout, `bytearray`'s range check and a strict decoder for the round trip.
- `SpriteExport` covers the alpha drop, frame order and the two ways the sprite bytes fail to be written: without frames the `.bin` file is never opened, and with a value above 255 it is left empty.
- `Rasterize` and `MakeBin` are the two scripts' entry points.

Some places where the model follows the code rather than a looser reading of it:

- **A day that is in range but not in the calendar.** A row whose day passes the 1..31 range check but does not exist in its month (31 April, 29 February of a common year) is not skipped. Building the `datetime` raises, so the whole `parse_observations` call raises. The station then keeps its old observations for that round. The model gives this outcome as `Failure(NoSuchDate)`.
- **Truthiness of stored observations.** `Observations` defines no length, so Python treats every instance as true. `not prev` therefore holds only when no observations are stored. A stored empty set is compared with `newer_than`. That comparison fails only when the fetched set is empty as well, so any non-empty fetch replaces a stored empty set.
- **Timestamps.** A row's time is its UTC (year, month, day, hour, minute). The aware datetimes the code compares are ordered the same way as these fields read lexicographically.

## Model

| member | source | states |
|---|---|---|
| Sequences.FilterMapSelects | buoys.py:114-133 | the kept results are exactly the images of the accepted elements, taken at the increasing list of accepted positions and in that order |
| Sequences.OrderedSelectionIsFilterMap | buoys.py:175-180 | conversely, any result that lists the images of exactly the accepted positions in increasing order is the filtered sequence, so the selection is determined |
| Buoys.Observations.Latest | buoys.py:35-37 | there is a latest observation exactly when the list is non-empty, and it is the first one listed, the newest |
| Buoys.Observations.LatestTime | buoys.py:39-41 | the latest time exists exactly when the latest observation does, and it is that observation's time |
| Buoys.BeforeIsStrictTotalOrder | buoys.py:51 | the time order `newer_than` compares with is irreflexive, asymmetric, transitive and total on distinct instants |
| Buoys.WaveHeightUpUnlessFalling | buoys.py:43-46 | the trend is "down" exactly when there are two readings and the newest is strictly lower; a tie counts as up |
| Buoys.NewerThanIsStrictOrder | buoys.py:48-51 | `newer_than` is irreflexive, asymmetric and transitive; an empty set is never newer, and a non-empty set is newer than an empty one |
| BuoyParsing.ColumnIndexOf | buoys.py:70-73 | the result is the first index whose header equals the target, and it is `None` exactly when no header matches |
| BuoyParsing.ParseInt | buoys.py:76-85 | an integer results exactly when the index exists, lies inside the row, converts, and lies in `[lo, hi]` (both ends included); it is the converted value |
| BuoyParsing.ParseFloat | buoys.py:76-89 | the same for decimal fields: a value only when present, convertible and inside `[lo, hi]` |
| BuoyParsing.DaysInMonth | buoys.py:130 | month lengths lie between 28 and 31; April, June, September and November have 30 days, the other months but February 31, and February has 29 days exactly in leap years |
| BuoyParsing.ParseRow | buoys.py:116-128 | a row yields fields exactly when all seven fields parse, and the fields are then the seven parsed values, each in its year, month, day, hour, minute, WVHT or DPD range |
| BuoyParsing.ParseObservations | buoys.py:96-134 | fewer than two lines raise; otherwise the observations are the kept rows converted one for one and in order, unless some kept row names a day its month lacks, which raises |
| BuoyParsing.RowsKeptInFileOrder | buoys.py:114-133 | the kept rows are exactly the complete, in-range rows below the two header lines, in file order |
| BuoyParsing.ParsedObservationsInRange | buoys.py:118-132 | every observation of a successful parse lies in the checked ranges, with the height converted to feet |
| BuoyParsing.FieldsOfObservation | buoys.py:130-132 | building an observation from a row loses nothing: the row's fields, height back in metres, are recovered |
| BuoyParsing.MissingColumnKeepsNothing | buoys.py:106-128 | a header line lacking any of the seven columns makes every row fail, so the parse yields no observations |
| BuoyStations.Fetched | buoys.py:163-171 | a fetch yields observations exactly when the download succeeded and the file parsed, and they are then the parsed observations |
| BuoyStations.Refresh | buoys.py:166-168 | a station keeps its id and name, and afterwards holds either its old observations or the fetched ones |
| BuoyStations.RefreshChangesIffReplaced | buoys.py:166-169 | a station changes exactly when the fetch succeeded and nothing was stored or the new set is newer; a failed fetch leaves it unchanged |
| BuoyStations.StoredNeverRegresses | buoys.py:166-168 | once a station holds observations it keeps some, and the newest time it holds never moves back |
| BuoyStations.UpdateObservations | buoys.py:160-172 | each station is refreshed from its own fetch outcome, in order; the result is true exactly when some station was replaced |
| BuoyStations.PollStations | buoys.py:160-172 | the same round from the raw downloads: a station whose download failed is unchanged, ids and names are kept, and the result is true exactly when some station changed |
| BuoyStations.FormatLine | buoys.py:150-157 | the line starts with `+` or `-`, `+` exactly when the height rose or held, and it reports the station's name and the latest observation's height, period and time |
| BuoyStations.MessageLinesOnePerStation | buoys.py:175-180 | the message has exactly one line per station holding a non-empty set, in station order, and no other lines |
| SpriteFormat.RowBytes | rasterize.py:42-45 | a row of `w` pixels takes `3w` bytes, with pixel `x` at `3x` as R, G, B |
| SpriteFormat.Serialize | rasterize.py:16-17 | the first byte is the number of frames |
| SpriteFormat.SerializeLength | rasterize.py:39-45 | the length is one count byte plus `2 + 3·w·h` bytes per frame |
| SpriteFormat.SerializeFrameHeader | rasterize.py:39-40 | frame `i`'s block starts at its offset with the width byte and then the height byte |
| SpriteFormat.SerializePixel | rasterize.py:42-45 | pixel (x, y) of frame `i` lies at block offset `2 + 3(y·w + x)` as R, G, B: the order is row-major and alpha is not written |
| SpriteFormat.ToBytes | rasterize.py:53-54 | `bytearray` accepts a list exactly when every value is in 0..255, and then keeps the values |
| SpriteFormat.SerializeFitsBytes | rasterize.py:53-54 | the byte list converts exactly when there are fewer than 256 frames and every width and height is below 256 |
| SpriteFormat.Decode | rasterize.py:14-45 | whatever the decoder accepts is the serialisation of frames that fit the single-byte fields |
| SpriteFormat.RoundTrip | rasterize.py:14-45 | decoding the serialised frames gives back exactly those frames |
| SpriteFormat.DecodeIffSerialize | rasterize.py:14-45 | the decoder yields some frames exactly when the bytes are those frames' serialisation |
| SpriteFormat.PrefixOfExactDecode | rasterize.py:39-45 | the frame stream is prefix-free: no proper prefix of a complete stream decodes to the same frame count |
| SpriteFormat.DecodeRejectsTruncation | rasterize.py:14-45 | a sprite file cut short at any point does not decode |
| SpriteExport.ToFrame | rasterize.py:42-45 | the frame has the image's size and each pixel's R, G and B, with alpha dropped |
| SpriteExport.Encode | img/rasterize.py:45-48 | the first byte is the number of images |
| SpriteExport.EncodeLength | img/rasterize.py:51-60 | the encoded length is one count byte plus `2 + 3·w·h` bytes per image |
| SpriteExport.EncodeHeader | img/rasterize.py:54-55 | image `i`'s block starts with its width and then its height |
| SpriteExport.EncodePixel | img/rasterize.py:57-60 | pixel (x, y) of image `i` is written row-major as R, G, B from the image, without alpha |
| SpriteExport.Export | img/rasterize.py:64-70 | no images fails with `NoFrames`, because `images[0]` raises; otherwise the bytes are produced exactly when every count and size fits a byte, and they decode to the images' frames |
| SpriteExport.BinFile | img/rasterize.py:64-70 | the `.bin` file is never opened without images; it is left empty when a count or size exceeds 255, because it is opened before `bytearray` raises; otherwise it holds bytes that decode to the images' frames |
| SpriteExport.RenderAll | rasterize.py:21 | the images are those of frames 1..n, in that order |
| SpriteExport.ExportRendered | img/rasterize.py:47-70 | n frames rendered at w by h export exactly when n is 1..255 and w and h are below 256; the file then holds `1 + n(2 + 3wh)` bytes and decodes to the rendered frames in order |
| Rasterize.Rasterize | rasterize.py:10-54 | zero frame groups fail with `NoFrames`, before any file is opened; otherwise, when the bytes are produced, the first byte is the frame count and they decode to frames 1..n rendered at 32 by 16 |
| Rasterize.RasterizeAtExportSize | rasterize.py:21-54 | with 32 by 16 renders, the sprite bytes are produced exactly for 1 to 255 frames and number `1 + 1538n` |
| MakeBin.MakeBin | img/rasterize.py:42-70 | the same for a given export size: `NoFrames` without frames; otherwise, when the bytes are produced, count byte first, and they decode to frames 1..n |
| MakeBin.MakeBinWritten | img/rasterize.py:42-70 | with sides below 256 and renders of that size, the bytes are produced exactly for 1 to 255 frames and number `1 + n(2 + 3wh)` |
| MakeBin.RunUntilFailure | img/rasterize.py:73-77 | the calls `main` completes are the jobs in order, up to and including the first that raises; every earlier one succeeded |
| MakeBin.CompletedIff | img/rasterize.py:73-77 | call k completes successfully exactly when calls 0 to k all succeed |
| MakeBin.MainJobsFitBytes | img/rasterize.py:73-77 | all four sprites `main` builds have sides that fit a byte |
| MakeBin.MainJobsExport | img/rasterize.py:73-77 | sprite k is written exactly when the SVGs of jobs 0 to k all have 1 to 255 frame groups, since an earlier failure ends the script; it then holds `1 + n(2 + 3wh)` bytes |

## Left out

- Downloading the data file, logging, the polling loop with its sleep, the `buoys.txt` write and the process restart are I/O and process control. They are not modelled. A download is a `Response` that is absent when it raised.
- Splitting the text into lines and words is not modelled. A data file arrives as a sequence of lines, each a sequence of words.
- Python's `int` and `float` on a word are not modelled. They are given as partial conversions (`Numerals`).
- BuoyParsing.ParseObservations: the height in feet is exact real multiplication by 3.28084, not a rounded float. The conversion to the local time zone is not modelled either: times stay in UTC.
- BuoyStations.FormatLine: the numeric and clock formatting of `LINE_FORMAT` and `strftime` is not modelled. The line is the trend sign, the name and the latest reading as values.
- BuoyStations.UpdateObservations takes each station's fetch outcome as an input. `PollStations` computes those outcomes from the raw downloads.
- SVG frame toggling, Inkscape, reading the PNG, the GIF preview and the removal of temporary files are calls into other tools. The rendered images are a `Renderer` parameter, and the SVG's frame-group count is a number.
- SpriteExport.Export assumes `getpixel` returns four channels (an RGBA PNG), as the scripts' four-way unpacking does. An image in another mode, which would raise there, is not modelled.
- SpriteExport.BinFile describes the `.bin` file only when the script has opened it. When the script stops before opening it (no images), the file keeps whatever it held before, which is not modelled.
- MakeBin.JobResults gives every job's outcome as a value. Only the prefix that `RunUntilFailure` keeps counts as run: the rest are never started.
- SpriteFormat.Decode rejects bytes left after the last frame. The sprite loader on the LED side is not part of this model.
- `wave.cpp` is only a test loop over the display driver and is not part of this model.
- `buoys_test.py` tests `Observations.one_per_hour`, which `buoys.py` does not define, so there is nothing to model against it.
