# cuddle-bot: verified model of the ASCII-art converter and the message dispatcher

This project models two pieces of the Discord bot "cuddle-bot" in Dafny and proves their properties.

1. **The image-to-ASCII rasterizer** `Asciify` (module `Asciify`, file `asciify.dfy`).
   It checks the filename suffix (`.png`, `.jpg`, `.jpeg`, compared after lower-casing).
   It rejects a zero `maxWidth` or `maxHeight`, and a decoded image with no columns or no rows.
   It then plans the output size: the longer side of the image takes its bound, and the other side is scaled to keep the image's proportions.
   Each output cell samples one source pixel by nearest-pixel back-mapping.
   That pixel's gray level `Y` (0..255) becomes index `Y * 70 / 256` into the fixed 70-character gradient `$@B%8&WM#*…'. `, which runs from dense to sparse.
   The glyphs are written row by row, and each row ends in `\n`.
   The method is proved against the specification function `Rendering`.
   Lemmas about `Rendering` give the output's length, the contents of each row, and each character.
2. **The bot's message handling** (module `Bot`, file `bot.dfy`).
   `NewMessage` ignores the bot's own messages and any message whose first space-separated word is not `<@botid>`.
   It then dispatches on the second word: `help`, `hi`, `asciify`, `asciifile`, or anything else.
   `AsciifyCommand` validates the attachment count and the attachment's content type.
   It also validates the optional `maxWidth maxHeight` arguments and resolves the box that is handed to the rasterizer.
   `Convert` models the rest of the handler: the rasterizer call, the inline reply or the `.txt` file reply, and the failure replies.

Go's `strings.LastIndex`, `strings.ToLower` and `strings.Split` are modelled in module `GoStrings` (`gostrings.dfy`), together with `Join`, the inverse used to state `Split`'s round trip.
`Wrappers` (`wrappers.dfy`) holds the `Option` type.

Modelling choices:
- The decoded image is an `array2<Color>`, indexed `[x, y]`, with the origin at (0, 0).
  Its first dimension is the width (`Bounds().Max.X`) and its second is the height.
- `color.GrayModel.Convert` is the parameter `toGray: Color -> Gray`.
- Opening and decoding the file is the parameter `decoded`, where `None` means that step failed.
- The source computes the geometry and the sampling in float32.
  Here they use exact `real` arithmetic.
  Go's `int(f)` is modelled as truncation toward zero (`Trunc`).
- The quantization is exact in float32, because 70/256 = 35/128 is a float32 value.
  `LevelIsScaledGray` proves that the real-valued formula, truncated, equals the integer `Level`.
- `strconv.Atoi` is the parameter `atoi`.
  The download result, the decoded image, the result of writing the text file and the random id are parameters of `Convert`.

Notable behaviour of the code, which the model follows (some of it departs from the doc comment and from the intent of the default box):
- The palette has 70 characters, and the index is `Y * 70 / 256` truncated (no clamping is needed, see `Level`).
- Sizes are truncated, not rounded.
- A square image keeps the whole box: the height is not halved, despite the doc comment at `asciify.go:26-29`.
- There is no capping at the image's native resolution.
- In the wider-than-tall branch the height ignores `maxHeight` (`WideImageIgnoresMaxHeight`).
  For example, a 100×99 image in the default 60×30 inline box gives 59 rows of 61 characters.
  That is 3599 characters, above the 2000-character message limit the default box is meant to respect (`bot.go:138`).
- Only a zero bound is rejected. A negative bound is accepted (`NegativeWidthGivesEmptyRows`).
- The file-type check is part of the rasterizer.
- The zero-output check after planning can never fire with exact arithmetic (`FitNonZero`).
  Even in float32 it cannot fire for image sizes that fit in an `int`.
- The width and height refusals print the mode's default (256 and 128 for `asciifile`), while the checks are against 60 and 30 (`AsciifyCommand`, `FileWidthRefusalNamesDefault`).
- When the text file cannot be created, the handler still tries to send it. The send wrapper then cannot open it and replies "couldn't open the file" instead (`Convert`).

## Model

| member | source | states |
|---|---|---|
| `GoStrings.LastIndex` | cuddle-bot/asciify/asciify.go:32 | the result is -1 exactly when the character is absent; otherwise it holds the character and no later position does |
| `GoStrings.ToLower` | cuddle-bot/asciify/asciify.go:32 | same length; every character is lower-cased on its own (ASCII letters) |
| `GoStrings.Split` | cuddle-bot/bot/bot.go:67 | at least one piece; no piece contains the separator |
| `GoStrings.JoinSplit` | cuddle-bot/bot/bot.go:67 | joining the pieces of a split with the separator gives back the message text |
| `GoStrings.SplitJoin` | cuddle-bot/bot/bot.go:67 | splitting separator-free words joined by single separators gives back the words |
| `GoStrings.FirstPiece` | cuddle-bot/bot/bot.go:67-68 | the first piece equals a separator-free word exactly when the text is that word or starts with it and a separator |
| `GoStrings.Decimal` | cuddle-bot/bot/bot.go:149 | `%d` of a non-negative integer is a non-empty run of decimal digits whose value (`DigitsValue`) is the integer, with no leading zero except for 0 itself |
| `Asciify.ExtensionAfterStem` | cuddle-bot/asciify/asciify.go:32-35 | a name ending in a '.'-led suffix with no other '.' passes exactly when the lower-cased suffix is `.png`, `.jpg` or `.jpeg`, whatever the stem |
| `Asciify.UpperCaseExtension` | cuddle-bot/asciify/asciify.go:32-35 | `.JPEG` passes: the comparison is case-insensitive |
| `Asciify.OnlyLastSuffixCounts` | cuddle-bot/asciify/asciify.go:32-35 | a name ending in `.png.txt` is refused: only the suffix from the last '.' counts |
| `Asciify.Fit` | cuddle-bot/asciify/asciify.go:57-64 | wide image: width = maxWidth; tall image: height = maxHeight; both keep width:height = W:H; square image: the box unchanged |
| `Asciify.FitNonZero` | cuddle-bot/asciify/asciify.go:66-69 | with non-zero bounds and a non-empty image, neither planned dimension is zero |
| `Asciify.Trunc` | cuddle-bot/asciify/asciify.go:73 | Go's float-to-int conversion: the integer part, truncated toward zero, within 1 of the value |
| `Asciify.LongerSideTakesBound` | cuddle-bot/asciify/asciify.go:57-64 | with a positive bound, the longer side of the image gets exactly that bound in characters and the other side strictly fewer |
| `Asciify.WideImageIgnoresMaxHeight` | cuddle-bot/asciify/asciify.go:60-61 | a 100×99 image in a 60×30 box is planned at 60×59.4, so 59 rows: maxHeight is not a cap |
| `Asciify.ThinImageHasNoRows` | cuddle-bot/asciify/asciify.go:66-75 | a 1000×1 image in a 60×30 box plans 0.06 rows, which passes the zero check and truncates to zero rows |
| `Asciify.Sample` | cuddle-bot/asciify/asciify.go:78 | every sampled source coordinate of an output cell lies inside the image, so `At` is never asked for a pixel outside it |
| `Asciify.SampleMonotone` | cuddle-bot/asciify/asciify.go:78 | later cells never sample earlier pixels |
| `Asciify.Level` | cuddle-bot/asciify/asciify.go:79 | the gradient index of every gray level 0..255 is within the 70-character gradient |
| `Asciify.LevelIsScaledGray` | cuddle-bot/asciify/asciify.go:79 | the float formula `Y * (70/256)` truncated equals the integer index, which equals `Y * 35 / 128` |
| `Asciify.LevelMonotone` | cuddle-bot/asciify/asciify.go:79 | a darker pixel never maps to a later, sparser glyph |
| `Asciify.LevelEnds` | cuddle-bot/asciify/asciify.go:18-19 | gray 0 maps to index 0, `$`; gray 255 maps to the last index, a space |
| `Asciify.Cell` | cuddle-bot/asciify/asciify.go:78-79 | every glyph written for a cell is a gradient character |
| `Asciify.Rendering` | cuddle-bot/asciify/asciify.go:72-82 | n rows of output are exactly n × (columns + 1) characters long |
| `Asciify.RenderingRow` | cuddle-bot/asciify/asciify.go:75-82 | row y occupies positions y(c+1) to (y+1)(c+1) and is that row's glyphs followed by `\n` |
| `Asciify.RenderingAt` | cuddle-bot/asciify/asciify.go:75-82 | character y(c+1)+x of the output is the glyph of cell (x, y), or `\n` when x is the column count |
| `Asciify.NegativeWidthGivesEmptyRows` | cuddle-bot/asciify/asciify.go:36-38 | a negative width bound passes the check; for a square image the output is maxHeight newlines |
| `Asciify.UniformImage` | cuddle-bot/asciify/asciify.go:78-79 | an all-black image renders every cell as `$`, an all-white one as a space |
| `Asciify.Asciify` | cuddle-bot/asciify/asciify.go:30-85 | errors in the source's order: bad suffix, zero bound, open/decode failure, empty image; each error comes with ""; otherwise no error and the text is the full rendering of the planned grid |
| `Bot.AsciifyCommand` | cuddle-bot/bot/bot.go:124-158 | no attachment, several, or a non-PNG/JPEG type each get their own reply; a box is produced exactly for one image attachment with no arguments, or with exactly two that parse to width ≤ 60 and height ≤ 30; the box never exceeds the mode's default; a width refusal names the mode's default width (256 for a file) and a height refusal its default height (128 for a file), not the checked limits 60 and 30 |
| `Bot.DefaultArguments` | cuddle-bot/bot/bot.go:138-141 | with no arguments the box is 60×30 inline and 256×128 for a file |
| `Bot.ExplicitArguments` | cuddle-bot/bot/bot.go:142-157 | with two arguments the box is exactly the parsed pair, accepted for both modes under the same limits |
| `Bot.WrongArgumentCount` | cuddle-bot/bot/bot.go:142-146 | one or more than two arguments get the usage reply |
| `Bot.FileWidthRefusalNamesDefault` | cuddle-bot/bot/bot.go:147-151 | `asciifile 100 20` is refused, and the reply names 256, the default file width, as the limit; `%d` of 256 is "256" |
| `Bot.NewMessage` | cuddle-bot/bot/bot.go:60-97 | nothing is sent exactly when the author is the bot or the first word is not the bot's mention |
| `Bot.AnsweredIffMentioned` | cuddle-bot/bot/bot.go:66-70 | a message from someone else is answered exactly when it is the mention or starts with the mention and a space |
| `Bot.BareMention` | cuddle-bot/bot/bot.go:80-83 | a message that is only the mention gets "you have to tell me what you want" |
| `Bot.Dispatch` | cuddle-bot/bot/bot.go:84-96 | `help` and `hi` go to their handlers; `asciify` and `asciifile` go to the same validation with `toFile` false and true; any other word gets "sorry, i don't follow" |
| `Bot.TxtNameReplacesExtension` | cuddle-bot/bot/bot.go:176 | for any stem and any '.'-led extension with no other '.', the text-file name is the stem followed by `.txt` |
| `Bot.TxtNameOfDownload` | cuddle-bot/bot/bot.go:161-176 | `<id>.png` becomes `<id>.txt` for every id |
| `Bot.Convert` | cuddle-bot/bot/bot.go:160-184 | failed download or conversion gets its reply; otherwise the inline reply carries the full rendering, or the file reply carries `<id>.txt` and the full rendering; when creating the file failed, the write-failure reply is followed by the couldn't-open reply, not by the file |

## Left out

- Opening and decoding the image (`asciify.go:41-49`) is the parameter `decoded`. Formats and decoder errors are not modelled.
- `color.GrayModel.Convert` is the parameter `toGray`. Its colorimetry is library code.
- float32 rounding in the geometry and the sampling is replaced by exact real arithmetic. `int(f)` of a value outside the `int` range is not modelled.
- `GoStrings.ToLower`: only ASCII letters are lower-cased. Unicode case mapping of other characters is not modelled.
- `Asciify.Asciify`: a filename with no '.' makes the source panic, because it slices from index -1. The model requires a '.' instead of modelling the panic. The bot's file names always have one.
- `Asciify.Asciify`: the error values are kinds (`Failure`), not the formatted error texts. The bot only logs those texts.
- `Asciify.Asciify`: the output-size reassignment of `outWidth`/`outHeight` is the pure function `Fit`, and the `strings.Builder` is the string `text`, appended to glyph by glyph.
- `strconv.Atoi` is the parameter `atoi`.
- `help` (`bot.go:100-120`) is `ShowHelp`. Its text depends on Go's unspecified map iteration order.
- `download`, `createTxt`, `uuid.New()` and the `os.Remove` cleanups (`bot.go:160-220`) are parameters or omitted. They are network and file I/O.
- The JSON debug dump and the `slog` logging (`bot.go:72-77` and others) are not modelled. They are log output only.
- `interactionCreate` and `registerCommands` (`bot.go:222-294`) are not modelled. They are Discord API calls with a fixed reply.
- `bot_runner.go`, `cuddle-bot/main.go` and `cuddle-dev/main.go` are not modelled. They hold session lifecycle, signal handling and environment reading.
- `bot_messenger.go`: `channelMessageSend` is an `Outgoing` value, and a failed send is only logged. `channelMessageSendWithFile` is `SendWithFile`, where the file can be opened exactly when `createTxt` created it. Its `io.WriteString` error is ignored by the source, so a created file is taken to hold the whole text.
