# Media proxy: verified model

A Dafny model of the parts of the media proxy that decide what happens to bytes: the animated
PNG pipeline, the Lambda Runtime wire protocol, the origin download and the query parser. Each
file is a module; `dafny verify dfyconfig.toml` checks all of them.

What is proved, component by component:

- **Animated PNG.** The parser accepts exactly the well-formed animations, where well-formed is
  said over the list of chunks by counts and positions and knows nothing of the parser's state
  (`ApngStream`); `ApngRules` says it again chunk by chunk, with the error that each broken rule
  gives. A writer of animations (`ApngWriter`) is undone by parser and decoder, down to each field
  and each byte of data. On an accepted body the decoder's unchecked second walk stays inside the
  body, both of its guards are dead, and it gives every frame exactly the image data between its
  fcTL and the next; the PNGs it rebuilds read back as they were meant, and are still PNGs exactly
  when no IEND precedes the image data. The compositor's loops over the flat canvas do to every
  pixel what one pixel's blend and disposal say and nothing to any other; OVER is the exact
  Porter-Duff result rounded to nearest, with no 32-bit product or sum wrapping. Over whole runs,
  frames disposed of with PREVIOUS are invisible to all others and a full SOURCE frame wipes out the
  past; no composition failure can follow a successful decode; each picture reaches the encoder at
  the exact sum of the delays before it.
- **Runtime protocol.** The incremental response parser refines a specification that sees the
  whole stream at once, whatever the fragments; when a fragmentation does matter is stated exactly.
  The order of header lines does not matter. Printing an invocation and parsing it gives it back.
  The streamed response can be dechunked, split at its first NUL and unescaped to the response that
  was sent; a failing sink has received a prefix of it.
- **Origin download.** A protocol over the log of a run, written independently of the code, allows
  at most eleven requests, no URL twice, and no transport handle that was not preceded by a
  successful resolution of the same URL and followed by its destruction. Every run of the download
  is a run of that protocol, and its result is what the answers from outside dictate. The response
  accumulator latches its first error and retains the first 10 MiB offered before it.
- **Timelines.** AVIF and JPEG XL frames start at the exact sums of their durations, strictly
  increasing, and a clock overflow is reported exactly when the true sum does not fit 31 bits.
- **Query.** Parsing distributes over `&`, undoes percent-encoding in every spelling, and drops exactly
  the fields that are empty, hold a semicolon or are malformed.

## How it is modelled

- Bytes of images are integers below 256 (`Byte`); bytes of HTTP text are characters of a `string`,
  one for each. A chunk type is the big-endian number of its four letters.
- 32-bit and 64-bit arithmetic is either written out (`% 0x1_0000_0000` for the sequence counter and
  the length cast) or done in a newtype (`U32`, `U64`), whose range the verifier checks at every
  operation.
- zlib's `crc32`, libpng, libwebp, DNS, libcurl, the clock, URL parsing and URL validation are
  parameters about which nothing is assumed. libpng fills a buffer of the size it was given; the
  encoder, the sink and the network may fail at any step; each allocation the accumulator makes may
  fail. A decoder of JSON and of chunked coding is modelled for the round trips only.
- Vectors passed by reference come back as results, except the canvas, which is an array modified in
  place. Classes in the source are classes here. A few long functions are split where their parts
  are: `parse_apng` at its fcTL branch, `decode_apng_frames` into the walk, the rebuilding of one PNG
  and the rest, `convert_apng_to_webp` into its checks and its frame loop, `parse_headers` into its
  first line and the others, `perform_origin_request` at the life of the handle, `download_origin` at
  its loop, `feed` at the end of the headers.
- `Err` carries an error where the source sets one in a result; what else such a result holds is not
  modelled, nor is what the response parser's fields hold after an error.

## Where the code differs from what one might expect

- The parser does not look for an IEND. An animation without one, or with one before its acTL, is
  accepted by the parser and still not classified as an animation: `WithoutEndIsAcceptedNotClassified`
  gives one without, and `AcceptedIsClassified` says exactly which accepted bodies are.
- An IEND before the first IDAT is neither refused nor, after the acTL, missed by the classifier; the
  decoder copies it into every frame, which then ends before its data. `EndBeforeDataIsRebuiltEnded`
  gives such a body, and `RebuiltFrameIsStillPng` says that these bodies are the only ones.
- SPECIFICATION.md asks for a Content-Length that is a signed decimal number; the code also accepts
  a plus sign followed by a minus sign, as `PlusMinusIsAccepted` shows; `ContentLengthIsExact` has
  the exact set.
- A frame whose data chunks are all empty passes the parser and is refused by the decoder:
  `WithoutDataIsAcceptedNotDecoded` gives one, and `EmptyFrameIsTheOnlyStreamError` says that this is
  the decoder's only error of that kind.
- A response followed by excess bytes is an error, unless a fragment ends exactly at the end of the
  declared body; `FragmentationIndependence` states this as the one exception, and
  `ExcessAfterCut` that it is met by every such response.

## Model

| member | source | states |
|---|---|---|
| Bytes.ReadWritten | src/media/apng_decoder.cpp:20-31 | four bytes written for a word read back as that word, anywhere in a body |
| Bytes.WriteRead | src/media/apng_decoder.cpp:20-31 | a word has one encoding: writing back what was read gives the same bytes |
| Bytes.ReadIsBigEndian | src/media/apng.cpp:18-27 | words and half words are read with the most significant byte first |
| PngChunks.ReadEncoded | src/media/apng_decoder.cpp:38-52 | a chunk that was appended is read back with its type, data and matching CRC, whatever surrounds it |
| PngChunks.EncodeRead | src/media/apng.cpp:112-134 | a chunk that passes the bounds and CRC checks is byte for byte the encoding of what was read |
| PngChunks.WalkDatastream | src/media/apng.cpp:110-134 | walking a signature and encoded chunks finds exactly those chunks |
| PngChunks.TypesAreLetters | src/media/apng.cpp:15-40 | each chunk type is its four letters and the signature is that of the specification |
| PngChunks.ChunkLayout | src/media/apng_decoder.cpp:38-52 | an encoded chunk is its length, type and data in big-endian order and the CRC of type and data |
| PngChunks.EndChunkIsKnown | src/media/apng_decoder.cpp:38-52 | the encoding of IEND is the twelve bytes every PNG ends with |
| ApngParser.ControlError | src/media/apng.cpp:180-191 | no frame-control error exactly when the rectangle is nonempty and inside the canvas, the delay divides and both operations are known |
| ApngParser.TakeFrameControl | src/media/apng.cpp:156-193 | the fcTL branch takes the frame, or refuses it for the first check it fails, as the specification of that step does |
| ApngParser.ParseApng | src/media/apng.cpp:99-220 | the loop over the body equals the chunk-by-chunk specification, including which error comes first |
| ApngStream.StepKeepsRecords | src/media/apng.cpp:136-211 | every accepted chunk keeps the state variables equal to counts, sequence numbers, frame controls and frame ownership of the chunks so far |
| ApngStream.ParserAcceptsExactlyWellFormed | src/media/apng.cpp:99-220 | a body is accepted with a description if and only if it is the datastream of a well-formed animation with that description: one IHDR, one acTL before every IDAT, numbered fcTL and fdAT, declared number of frames, data for each frame before the next, IDAT for frame 0 or none, rectangles inside the canvas |
| ApngStream.SequenceNumbersAreConsecutive | src/media/apng.cpp:177-209 | in an accepted body below 4 GiB the sequence numbers in file order are 0, 1, 2, ... |
| ApngStream.SameChunks | src/media/apng.cpp:110-213 | a datastream has only one list of chunks, so both walks see the same one |
| ApngRules.AcceptedKeepsOrder | src/media/apng.cpp:99-220 | in every accepted body, by position alone: one IHDR before one acTL before all images and frames; image data between any two frame controls and after the last; no IDAT after a second control, nor after any when one precedes the first; fdAT after an IDAT and for another frame |
| ApngRules.RefusalIsExplained | src/media/apng.cpp:99-220 | every error is true: after the chunks found, what follows is no chunk, or breaks the rule the error names before any other, or something is missing at the end |
| ApngRules.BrokenRuleIsRefused | src/media/apng.cpp:136-211 | the first chunk that breaks a rule is refused, and for the first rule that it breaks |
| ApngRules.NoChunkIsRefused | src/media/apng.cpp:110-134 | after chunks that keep the rules, a truncated chunk, an excessive length or a wrong CRC is refused as that |
| ApngRules.RulesDecide | src/media/apng.cpp:99-220 | a body of whole chunks is accepted if and only if no chunk breaks a rule and nothing is missing |
| ApngClassifier.ClassifyApng | src/media/apng.cpp:56-97 | the scan loop equals its specification from every offset |
| ApngClassifier.ClassifyByChunks | src/media/apng.cpp:66-96 | on any datastream the verdict depends only on the chunks before the first IEND: acTL among them, PLTE before the first IDAT among them |
| ApngClassifier.AcceptedIsClassified | src/media/apng.cpp:56-97 | an accepted body is classified as an animation if and only if an IEND follows its acTL and none precedes it; palette if and only if also PLTE precedes the first IDAT there |
| ApngClassifier.ClassifierAgreesWithParser | src/media/apng.cpp:56-97 | an accepted body whose one IEND is last is never not an APNG, and is palette exactly when PLTE precedes the first IDAT |
| ApngClassifier.ClassifiedExactly | src/media/apng.cpp:56-97 | any bytes at all are classified as an animation if and only if they are longer than 41, start with the signature and their lengths lead to an IEND with an acTL before it; as palette if and only if also PLTE precedes the first IDAT there |
| Rgba.RgbaSizeIsExact | src/media/apng_decoder.cpp:54-67 | the two division tests refuse exactly the empty images and those whose byte size exceeds a size_t |
| ApngDecoder.AppendU32 | src/media/apng_decoder.cpp:26-31 | pushes the big-endian bytes of the value |
| ApngDecoder.AppendChunk | src/media/apng_decoder.cpp:38-52 | appends the encoding of the chunk, its CRC over type and data |
| ApngDecoder.DecodedSize | src/media/apng_decoder.cpp:69-107 | a decoded frame has exactly the bytes its frame control asks for |
| ApngDecoder.DecodePngIsExact | src/media/apng_decoder.cpp:69-107 | a datastream is decoded if and only if libpng reads an image of the frame's size into four bytes a pixel, and every byte is the one it wrote; wrong sizes and unreadable datastreams are told apart |
| ApngDecoder.WalkStep | src/media/apng_decoder.cpp:134-173 | on a well-formed animation every chunk met by the walk keeps the frame index in range, an IHDR fits its 13 bytes and an fdAT has its 4 |
| ApngDecoder.CollectFrameData | src/media/apng_decoder.cpp:124-173 | the unchecked walk never reads outside the body, never takes its guards, ends on the last frame, and leaves for every frame the in-order payloads between its fcTL and the next, and the shared chunks in order |
| ApngDecoder.FrameEncoding | src/media/apng_decoder.cpp:196-200 | the bytes of a rebuilt frame are the datastream of header, shared chunks, one IDAT and IEND |
| ApngDecoder.RebuildPng | src/media/apng_decoder.cpp:189-200 | patches width and height into the header by shifts and appends the chunks of the frame |
| ApngDecoder.DecodeApngFrames | src/media/apng_decoder.cpp:118-212 | the result is that of decoding each frame's own datastream in order, the first error deciding |
| ApngDecoder.RebuiltFrameReadsBack | src/media/apng_decoder.cpp:184-200 | a rebuilt frame walked again is an IHDR with the frame's size and the animation's other fields, the shared chunks in order, one IDAT with the frame's data and IEND, all CRCs matching, without acTL, fcTL and fdAT, so it classifies as no APNG |
| ApngDecoder.RebuiltFrameIsStillPng | src/media/apng_decoder.cpp:168-200 | a rebuilt frame has its one IEND at the end, one IHDR at the start, one IDAT and no animation chunk if and only if the body has no IEND before its first IDAT |
| ApngDecoder.LastEndGivesStillPngs | src/media/apng_decoder.cpp:184-200 | when the body's one IEND is its last chunk, every rebuilt frame is a still PNG |
| ApngDecoder.DecodesReadableFrames | src/media/apng_decoder.cpp:184-215 | an accepted body is decoded if and only if every frame has data and a PNG that libpng takes, and then each frame is what libpng reads from its own PNG |
| ApngDecoder.EmptyFrameIsTheOnlyStreamError | src/media/apng_decoder.cpp:154-187 | an accepted body with an empty frame is never decoded; it ends in a frame-stream error if and only if some frame has no data and libpng takes every frame before it |
| ApngDecoder.FirstUnreadableDecides | src/media/apng_decoder.cpp:118-212 | decoding fails with an error if and only if the first frame that is not readable fails with it |
| ApngDecoder.DecodedIsComposable | src/media/apng_decoder.cpp:175-211 | every frame of a decoded animation lies inside the nonempty canvas, has known operations and exactly its size in bytes |
| AlphaBlending.NumeratorsFit | src/media/apng_compositor.cpp:64-69 | the denominator is positive and both numerators stay far below 32 bits |
| AlphaBlending.RoundedBetween | src/media/apng_compositor.cpp:48-51 | the quotient is rounded to nearest and lies between any bounds of the exact one, so the cast loses no bits |
| AlphaBlending.OverColorBetween | src/media/apng_compositor.cpp:66-71 | each blended colour lies between the source and the destination colour |
| AlphaBlending.OverAlphaGrows | src/media/apng_compositor.cpp:65-72 | the blended alpha is at least both input alphas |
| AlphaBlending.OverIsRoundedPorterDuff | src/media/apng_compositor.cpp:53-73 | for every two pixels, alpha and colours are within half a step of the exact Porter-Duff over computed on fractions, and a transparent source changes nothing |
| AlphaBlending.ShortcutIsExact | src/media/apng_compositor.cpp:56-63 | for a transparent or opaque source or a transparent destination the exact Porter-Duff result is one of the two pixels |
| Raster.PixelOffsetIsProduct | src/media/apng_compositor.cpp:27-30 | the offset of a pixel is (y * width + x) * 4 |
| Raster.Apart | src/media/apng_compositor.cpp:27-30 | distinct pixels of the grid never share a byte |
| Raster.GridDetermines | src/media/apng_compositor.cpp:27-30 | every byte of a raster belongs to a pixel of the grid: equal pixels are equal bytes |
| Raster.PatchedRun | src/media/apng_compositor.cpp:32-46 | writing a run of pixels in a row changes those pixels and no other |
| ApngCompositor.ClearRectangle | src/media/apng_compositor.cpp:32-37 | exactly the rectangle becomes transparent, in place |
| ApngCompositor.SourceCopy | src/media/apng_compositor.cpp:39-46 | exactly the rectangle becomes the frame's pixels, in place |
| ApngCompositor.SourceOverPixel | src/media/apng_compositor.cpp:53-73 | the four bytes become the blended pixel and no other byte changes |
| ApngCompositor.SourceOver | src/media/apng_compositor.cpp:75-83 | every pixel of the rectangle is blended exactly once over what was there, in place |
| ApngCompositor.ClearThenCopy | src/media/apng_compositor.cpp:112-114 | clearing before the copy is not observable |
| ApngCompositor.ComposeApngFrame | src/media/apng_compositor.cpp:92-130 | the first failing check decides and leaves the canvas unchanged; otherwise the displayed copy is the blend taken before disposal and the canvas is the disposed one |
| ApngCompositor.ComposedPixel | src/media/apng_compositor.cpp:111-127 | each displayed and each kept pixel depends on its own previous value and the frame alone: unchanged outside the rectangle, source or OVER inside, cleared or restored by disposal |
| ApngCompositor.FullSourceIsShown | src/media/apng_compositor.cpp:112-114 | a SOURCE frame of the canvas's size is displayed as it is, whatever the canvas held |
| ApngCompositor.ComposedBytes | src/media/apng_compositor.cpp:53-127 | byte by byte at offset (y * width + x) * 4 + channel: outside the rectangle nothing changes; inside, SOURCE shows the frame's byte and OVER the exact blend within half a step; then NONE keeps what is shown, BACKGROUND leaves zero and PREVIOUS the old byte |
| ApngCompositor.TransparentFrameShowsCanvas | src/media/apng_compositor.cpp:56-58 | an OVER frame that is transparent everywhere displays the canvas unchanged |
| ApngCompositor.FailureIsJustified | src/media/apng_compositor.cpp:92-109 | a frame is refused if and only if a size, the rectangle or an operation is wrong, and the error is the first of these |
| ApngConversion.DurationIsExact | src/media/apng_compositor.cpp:132-138 | the 32-bit product does not wrap and the duration is the delay rounded down to milliseconds |
| ApngConversion.CanvasFits | src/media/apng_conversion.cpp:60-71 | after the width and height checks the canvas size cannot overflow |
| ApngConversion.StartTimesInOrder | src/media/apng_conversion.cpp:118-127 | start times never decrease |
| ApngConversion.FramesLastTheirDelays | src/media/apng_conversion.cpp:118-127 | the first frame starts at zero and each next one exactly the delay before it, rounded down to milliseconds, later |
| ApngConversion.BlankIsTransparent | src/media/apng_conversion.cpp:99-103 | the start canvas has four bytes a pixel and all are zero |
| ApngConversion.PreviousFrameIsInvisibleToOthers | src/media/apng_conversion.cpp:118-148 | deleting a frame disposed of with PREVIOUS leaves every other displayed canvas of the run unchanged |
| ApngConversion.RunsAgreeAfterReset | src/media/apng_conversion.cpp:118-148 | runs from any two canvases display the same from the first full SOURCE frame not disposed of with PREVIOUS |
| ApngConversion.RunIsPixelwise | src/media/apng_conversion.cpp:118-148 | the run of the canvas is the product of independent runs of its pixels |
| ApngConversion.ComposableIsComposed | src/media/apng_compositor.cpp:92-109 | what the parser and the decoder let through passes every check of the compositor |
| ApngConversion.AddFrames | src/media/apng_conversion.cpp:118-148 | the frames added are the displays of the run at the exact sums of the delays before them; it stops only at a frame whose start does not fit 31 bits or that libwebp refuses |
| ApngEdgeCases.OnePixelIsAccepted | src/media/apng.cpp:99-220 | one frame control followed by any IDATs, at least one, and IENDs in any order is accepted as one frame of one pixel |
| ApngEdgeCases.WithoutEndIsAcceptedNotClassified | src/media/apng.cpp:56-97 | a body of four chunks without IEND is parsed and is not classified as an APNG |
| ApngEdgeCases.WithoutDataIsAcceptedNotDecoded | src/media/apng_decoder.cpp:184-187 | a body with one empty IDAT is parsed, classified as an APNG and refused by the decoder as a frame-stream error |
| ApngEdgeCases.EndBeforeDataIsRebuiltEnded | src/media/apng_decoder.cpp:168-200 | a body with an IEND before its IDAT is parsed, classified as an APNG and rebuilt as IHDR, IEND, IDAT, IEND |
| ApngWriter.ControlReadsBack | src/media/apng.cpp:165-176 | the 26 bytes written for a frame control read back as it, for every control |
| ApngWriter.ParserReadsWriter | src/media/apng.cpp:99-220 | every animation written by the format's tables, with any parts, ancillary chunks and fallback image, is accepted and described as it is: canvas, loop count, default image, each control field by field |
| ApngWriter.WalkGathersWritten | src/media/apng_decoder.cpp:134-173 | the payload of frame f is the concatenation of exactly the parts written for it, as IDATs or behind the sequence numbers of fdATs; the shared chunks are the ancillary ones before the image data, in order |
| ApngWriter.FrameIsItsPng | src/media/apng_decoder.cpp:189-200 | what is rebuilt for frame f is its own header, those ancillary chunks, its joined parts and IEND |
| ApngWriter.DecoderUndoesWriter | src/media/apng_decoder.cpp:118-212 | if libpng reads an image from the PNG of each frame, decoding a written animation gives the canvas and, in order, each control with exactly the bytes of its image |
| ApngWriter.ClassifierKnowsWritten | src/media/apng.cpp:56-97 | every written animation is classified as one, as palette if and only if a PLTE is written before the image data |
| ApngConversion.ConvertApngToWebp | src/media/apng_conversion.cpp:87-160 | it succeeds if and only if sizes fit, decoding succeeds, libwebp is ready, every frame passes and something is assembled from the whole run; the encoder is given the run up to the first frame that does not pass; otherwise the first thing that is wrong is what is reported, never a composition or base-frame failure |
| Timeline.SecondsAndRest | src/media/animated_conversion.cpp:466-472 | converting whole seconds and the rest apart gives the floor of the whole quotient |
| Timeline.JxlDuration | src/media/animated_conversion.cpp:466-472 | the duration is max(1, floor(ticks * denominator * 1000 / numerator)) with no 64-bit wrap; it is refused early only when that exceeds 31 bits |
| Timeline.JxlTimeline | src/media/animated_conversion.cpp:450-477 | every frame is added at the exact sum of the durations before it; the run is refused exactly at the first frame whose true end exceeds 2^31 - 1 |
| Timeline.AvifDuration | src/media/animated_conversion.cpp:300-300 | the duration is max(1, floor(ticks * 1000 / timescale)) |
| Timeline.AvifTimeline | src/media/animated_conversion.cpp:255-306 | the same for AVIF |
| Timeline.StartsIncrease | src/media/animated_conversion.cpp:300-305 | no two frames start at the same time |
| Timeline.FramesLastTheirTicks | src/media/animated_conversion.cpp:466-477 | a frame lasts the whole milliseconds its ticks are worth, at least one, by a bound from both sides; the first starts at zero and each next one when the one before is over |
| Text.TrimView | src/runtime/next_response.cpp:24-33 | the two loops compute the trimmed value |
| Text.TrimIsInside | src/runtime/next_response.cpp:24-33 | the trimmed value is a slice of the original with only blanks around it and none at its ends |
| Text.TrimTakesSpacesAndTabs | src/runtime/next_response.cpp:24-33 | exactly the spaces and tabs around a text are removed |
| Text.NamesMatchInAnyCase | src/runtime/next_response.cpp:14-22 | names are equal if and only if they agree letter by letter in either case of the alphabet |
| Text.FoundInPrefix | src/runtime/next_response.cpp:55-64 | a delimiter found in a prefix is found at the same place when more arrives |
| Decimal.ParseDecimal | src/runtime/next_response.cpp:35-53 | accepts exactly the nonempty digit strings whose true value fits the type, and yields that value |
| Decimal.ToStringValue | src/runtime/streaming.cpp:61-61 | the printed number denotes the number |
| Decimal.NoLeadingZero | src/runtime/streaming.cpp:61-61 | only zero is printed with a zero in front |
| Decimal.ValueOfConcat | src/runtime/next_response.cpp:35-53 | digits count by their place: those before n others weigh ten to the n |
| Decimal.DigitsHaveTheirValue | src/runtime/next_response.cpp:41-44 | the ten digits are read with their values and nothing else is a digit |
| RuntimeHead.TakenIsRecorded | src/runtime/next_response.cpp:144-175 | a line the loop takes keeps flags and fields equal to the values of the header names seen so far |
| RuntimeHead.RefusedIsUnacceptable | src/runtime/next_response.cpp:144-173 | a line the loop refuses makes every block containing it unacceptable |
| RuntimeHead.OrderDoesNotMatter | src/runtime/next_response.cpp:127-179 | permuting the header lines changes neither acceptance nor the parsed head |
| RuntimeHead.SplitJoined | src/runtime/next_response.cpp:139-143 | splitting at CRLF undoes joining lines |
| RuntimeHead.BlockEnd | src/runtime/next_response.cpp:55-64 | the first blank line is the end of the header block, whatever follows |
| NextResponse.ParseLines | src/runtime/next_response.cpp:135-178 | accepts exactly the line lists in which each of the four headers occurs once with a fitting value, every line is named and no transfer coding occurs |
| NextResponse.NextResponseParser.ParseHeaders | src/runtime/next_response.cpp:127-179 | succeeds exactly on acceptable blocks and then sets length and invocation from them |
| NextResponse.NextResponseParser.AppendEvent | src/runtime/next_response.cpp:114-125 | an event longer than declared is an error that appends nothing; otherwise it is appended, and complete exactly at the declared length |
| NextResponse.NextResponseParser.FeedHeaders | src/runtime/next_response.cpp:86-111 | while headers are incomplete the state after a call is the one-shot outcome of all bytes so far |
| NextResponse.NextResponseParser.Feed | src/runtime/next_response.cpp:78-112 | after any call the state is the one-shot outcome of all bytes up to the call that ended the parse |
| NextResponse.ErrorStays | src/runtime/next_response.cpp:78-125 | no further bytes turn an error into anything else |
| NextResponse.ExcessIsAnError | src/runtime/next_response.cpp:114-118 | any byte after a complete response makes the stream an error |
| NextResponse.FeedAll | src/runtime/next_response.cpp:78-112 | a new parser fed fragments ends with the one-shot outcome of what it absorbed |
| NextResponse.FragmentationIndependence | src/runtime/next_response.cpp:78-125 | complete and incomplete streams have the same outcome in any fragments; an erroneous stream is an error in any fragments except that it is complete exactly when a cut falls at the end of the declared body |
| NextResponse.ExcessAfterCut | src/runtime/next_response.cpp:114-118 | any complete response followed by any excess is an error in one call and complete when the call ends with the response |
| RuntimeRoundTrip.ParserUndoesPrinter | src/runtime/next_response.cpp:35-53 | a printed invocation, its header lines in any order and among other headers, parses as complete with exactly that invocation |
| RuntimeRoundTrip.ParserUndoesPrinterInPieces | src/runtime/next_response.cpp:78-125 | and so it does in any fragments |
| RuntimeRules.HeadIsExact | src/runtime/next_response.cpp:127-179 | lines are accepted with a head if and only if each has a name before its first colon, none is a Transfer-Encoding, and each of the four headers, in any case, stands there exactly once with a number of at most 8 MiB, a safe id, a 64-bit number and any trimmed text, which are the head |
| RuntimeRules.BlockIsExact | src/runtime/next_response.cpp:127-135 | a block is accepted if and only if it is the status line for success, CRLF and accepted lines |
| RuntimeRules.CompleteIsExact | src/runtime/next_response.cpp:78-125 | a stream is complete with an invocation if and only if it is an accepted block, the first blank line within 64 KiB, and as many bytes as declared |
| RuntimeRules.ErrorIsExact | src/runtime/next_response.cpp:78-125 | a stream is an error if and only if 64 KiB hold no blank line, the block is not accepted or more follows than declared |
| RuntimeRules.LiteralResponse | src/runtime/next_response.cpp:127-179 | the response as it stands on the wire, header names spelled out, parses as its invocation |
| Hex.HexDigitsValue | src/runtime/streaming.cpp:78-95 | the chunk-size digits denote the size |
| Hex.NoLeadingZero | src/runtime/streaming.cpp:78-95 | only a size of zero is printed with a zero in front |
| Hex.DigitsOfBothCases | src/http/percent_decode.hpp:10-31 | the hexadecimal digits of both cases are read with their values and nothing else is a digit |
| Json.AppendJsonString | src/runtime/streaming.cpp:19-57 | appends the quoted, escaped value |
| Json.ReadUndoesAppend | src/runtime/streaming.cpp:19-57 | a reader of JSON strings recovers any bytes from what was appended and stops at its end |
| Json.JsonHasNoControls | src/runtime/streaming.cpp:45-52 | the escaped string has no byte below 0x20 |
| Json.EscapesAreStandard | src/runtime/streaming.cpp:19-57 | quote, backslash and the five controls with a letter are escaped by it, other controls by their code in lower case, and nothing else is |
| Chunked.ReversedDigits | src/runtime/streaming.cpp:79-85 | the digits are the size reversed, and never overrun the sixteen places of the array |
| Chunked.ChunkPrefix | src/runtime/streaming.cpp:78-95 | the size in hexadecimal without leading zeros, and CRLF |
| Chunked.DechunkUndoesChunks | src/runtime/streaming.cpp:102-109 | a reader of chunked coding finds every nonempty piece in order, one chunk of size zero, and what follows it |
| Streaming.IntegrationMetadata | src/runtime/streaming.cpp:59-76 | the metadata object with the headers in order |
| Streaming.ByteSink.Write | src/runtime/streaming.cpp:97-100 | a write is delivered, or stops inside its bytes |
| Streaming.WriteChunk | src/runtime/streaming.cpp:102-109 | nothing for no bytes; else a chunk, or a prefix of it on failure |
| Streaming.WriteStreamingResponse | src/runtime/streaming.cpp:149-166 | on success the sink received the whole stream, on failure a prefix; an accepting sink makes it succeed |
| Streaming.MetadataHasNoControls | src/runtime/streaming.cpp:59-76 | the metadata holds no byte below 0x20, so the first NUL ends it |
| Streaming.PiecesAreTheBody | src/runtime/streaming.cpp:156-163 | the pieces are nonempty, all but the last exactly 64 KiB and the last at most that, and together the body |
| Streaming.DechunkUndoesStream | src/runtime/streaming.cpp:149-166 | dechunking gives metadata, eight NULs and the body with nothing after the last chunk |
| Streaming.ReaderUndoesWriter | src/runtime/streaming.cpp:149-166 | splitting at the first NUL and unescaping recovers status, ordered headers and body of every response |
| Streaming.SendAndRead | src/runtime/streaming.cpp:149-166 | what an accepting sink received reads back as the response |
| Streaming.KnownStream | src/runtime/streaming.cpp:149-166 | a known answer: the stream of a small response, byte for byte |
| RedirectPolicy.FindScheme | src/http/redirect_policy.cpp:43-58 | true exactly for a letter, scheme characters and a colon |
| RedirectPolicy.AbsoluteHasScheme | src/http/redirect_policy.cpp:43-58 | a location has a scheme if and only if letters, digits, plus, minus and dots, the first a letter, stand before a colon |
| RedirectPolicy.TargetIsExact | src/http/redirect_policy.cpp:115-157 | a location is followed to a URL if and only if fewer than ten redirects were made, it holds no NUL, it (or what it resolves to, when relative) validates as that URL, and the URL is new; each refusal names the first of these that fails |
| RedirectPolicy.RedirectTracker.constructor | src/http/redirect_policy.cpp:101-103 | starts with the initial URL as current and as the whole history |
| RedirectPolicy.RedirectTracker.Follow | src/http/redirect_policy.cpp:115-157 | a refused redirect changes nothing and says why; a followed one becomes current and last in a history without repetition that counts one more than the redirects |
| RedirectPolicy.CreateTracker | src/http/redirect_policy.cpp:105-113 | a tracker exists exactly for URLs that validation leaves as they are |
| OriginResponse.OriginResponseAccumulator.ConsumeHeaderLine | src/http/origin_response.cpp:55-84 | the new state is the step of the old one for this line |
| OriginResponse.OriginResponseAccumulator.SetContentLength | src/http/origin_response.cpp:86-120 | sets the length, or the error for which it is refused |
| OriginResponse.OriginResponseAccumulator.AppendBody | src/http/origin_response.cpp:122-139 | keeps as many bytes as fit below 10 MiB, returns how many, none after an error |
| OriginResponse.OriginResponseAccumulator.Finish | src/http/origin_response.cpp:141-151 | true exactly without error and with status 200; never replaces an error |
| OriginResponse.Deliver | src/http/origin_curl.cpp:58-82 | any interleaving of callbacks leaves the state of the run |
| OriginResponse.BodyIsWhatWasOffered | src/http/origin_response.cpp:122-139 | until an error latches the body is the first 10 MiB of all bytes offered |
| OriginResponse.AcceptedIsRetained | src/http/origin_response.cpp:122-139 | the accepted counts always sum to the length of the body, which never exceeds 10 MiB |
| OriginResponse.ErrorIsLatched | src/http/origin_response.cpp:55-151 | after an error no callback changes anything |
| OriginResponse.FirstErrorDecides | src/http/origin_response.cpp:55-151 | a run with an error has the error of its first failing call and the body offered before it |
| OriginResponse.NoErrorExactly | src/http/origin_response.cpp:55-139 | a run has no error if and only if no header line in it is refused and no allocation fails for bytes that would be kept |
| OriginResponse.HeaderLineMeans | src/http/origin_response.cpp:55-84 | whatever its line ending, the blocking resolver's line is an error, a Location in any case is remembered, a Content-Length in any case is read or refused, and any other line does nothing |
| OriginResponse.ContentLengthIsExact | src/http/origin_response.cpp:86-109 | a length is accepted if and only if it is an optional plus, an optional minus and digits with a value that fits 64 bits and is at most 10 MiB |
| OriginResponse.TooLargeIsExact | src/http/origin_response.cpp:86-109 | a length is too large if and only if it is such a number above 10 MiB that fits 64 bits; every other refusal is of an invalid length |
| OriginResponse.PlusMinusIsAccepted | src/http/origin_response.cpp:92-102 | a plus, a minus and a digit are accepted as a negative length |
| OriginDownload.EveryRunIsSafe | src/http/origin_download.cpp:175-224 | in every run of the protocol the history is without repetition and at most eleven long, requests are its URLs, each handle is opened right after a successful resolution of its URL and at most one is open |
| OriginDownload.RunsAreBounded | src/http/origin_download.cpp:175-224 | a finished run made at most eleven requests for distinct URLs and closed every handle it opened |
| OriginDownload.ExchangeIsAllowed | src/http/origin_download.cpp:68-133 | one request for the next URL is always a step of the protocol that ends with no handle open |
| OriginDownload.StagesDecide | src/http/origin_download.cpp:68-133 | a request passes nine stages, each an answer of an oracle, or fails with the error of the first it does not pass |
| OriginDownload.DownloadSucceedsExactly | src/http/origin_download.cpp:175-224 | a download from a valid URL succeeds if and only if the oracles lead it, through redirects that complete and whose target is accepted, to a request that passes every stage with status 200; its response is then the result |
| OriginDownload.Network.TransferOnHandle | src/http/origin_download.cpp:108-132 | the stages on an open handle, the body-limit completion counting as success |
| OriginDownload.Network.PerformRequest | src/http/origin_download.cpp:68-133 | the first failing stage decides and what is logged says how far the request got; resolution comes before the handle and the handle is closed on every path |
| OriginDownload.Network.FollowFrom | src/http/origin_download.cpp:187-224 | the loop has the result of the specification, and its log is a run of the protocol |
| OriginDownload.Network.DownloadOrigin | src/http/origin_download.cpp:175-224 | terminates; the oracles alone decide the result: it is that of the request at the end of the path they lead along, a success if and only if that completes with 200, else the error of its first failing stage or of the refused redirect; the log is a run of the protocol with no handle open that ends with the answer 200 if and only if it succeeds |
| Query.PercentDecode | src/http/percent_decode.hpp:34-59 | the index loop decodes escapes and plus signs, or nothing if one is malformed |
| Query.DecodeUndoesEncode | src/http/percent_decode.hpp:34-59 | decoding undoes percent-encoding of any bytes, each spelled as itself, as a plus for a space, or with digits of either case, as one likes |
| Query.DecodedUnlessMalformed | src/http/percent_decode.hpp:34-59 | decoding fails if and only if some percent sign is not followed by two hexadecimal digits |
| Query.AppendField | src/http/query.cpp:44-54 | one field contributes its pair or nothing |
| Query.FieldDropped | src/http/query.cpp:44-54 | a field is dropped if and only if it is empty, holds a semicolon or is malformed; any other is one pair |
| Query.ParseQuery | src/http/query.cpp:35-63 | the loop over fields equals the specification on the whole query |
| Query.ParsedConcat | src/http/query.cpp:35-63 | parsing a & b is parsing a and then b, for all strings |
| Query.ParseUndoesEncode | src/http/query.cpp:35-63 | any list of pairs of bytes, encoded in any of these spellings and joined, parses back to that list in order |
| Query.KeyAlone | src/http/query.cpp:47-54 | a key without an equals sign has the empty value |
| Query.First | src/http/query.cpp:20-28 | the value of the first pair with the key, or the empty string if there is none |

## Left out

- Decoding of compressed image data, resizing, WebP, AVIF and JPEG XL coding: foreign codecs, kept only as the answers the loops branch on.
- The frame-count and decoded-pixel limits, colour profiles and dimensions checks of the AVIF and JPEG XL conversions: one-branch checks beside the clock arithmetic.
- Sockets: a sink is a script of answers, and the socket behind it is not part of this model.
- write_streaming_error and base64: the error trailer would add one more encoding round trip of the same kind.
- URL syntax, internationalised host names, address policy, DNS answers and resolve pins: any two functions and flags stand for them.
- Capacity reservations, moves of buffers and self-aliasing of vectors: without effect on the values computed.
- Request plans, MIME detection, SVG, logging, the Lambda handler and the bootstrap: tables and glue that would only add easy members.
