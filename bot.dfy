/**
  * The bot's handling of a new chat message: ignore its own messages and those that
  * do not start with a mention of it, then dispatch on the command word; for the
  * `asciify` and `asciifile` commands, validate the attachment and the optional
  * box arguments, then convert the downloaded image and build the replies.
  *
  * Each handler's chat send is modelled as the response it returns. `strconv.Atoi`
  * is the parameter `atoi`; the download, the writing of the text file and the
  * random file name are parameters of `Convert`.
  */
module Bot {
  import opened Wrappers
  import opened GoStrings
  import Asciify

  const CmdHelp := "help"
  const CmdHi := "hi"
  const CmdAsciify := "asciify"
  const CmdAsciifile := "asciifile"

  /** The attachment content types the asciify commands accept. */
  const ImageContentTypes: seq<string> := ["image/png", "image/jpeg"]

  /** The replies that do not depend on the message. */
  const NothingAskedReply := "you have to tell me what you want :weary:"
  const GreetingReply := "sup sup :sunglasses:"
  const UnknownCommandReply := "sorry, i don't follow :sweat_smile:"
  const TooManyAttachmentsReply := "only send me one attachment, please... :weary:"
  const DownloadFailedReply := ":x: sorry, i couldn't download your image :grimmace:"
  const WriteFailedReply := ":x: sorry, i couldn't write that file :grimmace:"
  const FileDoneReply := ":white_check_mark: asciifiled: :nerd:"
  const OpenFailedReply := ":x: sorry, i couldn't open the file to send :grimmace:"

  datatype Attachment = Attachment(contentType: string, url: string)

  datatype Message = Message(authorId: string, content: string, attachments: seq<Attachment>)

  /** What the bot does with a message. */
  datatype Response =
    | Silent                          // nothing is sent
    | Say(text: string)               // one reply in the channel
    | ShowHelp(args: seq<string>)     // the help handler runs with these words
    | Render(attachment: Attachment, maxWidth: int, maxHeight: int, toFile: bool, command: string)
                                      // the attachment is downloaded and converted within this box

  /** A message the bot sends: plain text, or text with an attached file. */
  datatype Outgoing =
    | Text(text: string)
    | WithFile(text: string, fileName: string, fileContent: string)

  /** How a message addresses the bot. */
  function Mention(id: string): string
  {
    "<@" + id + ">"
  }

  function NoAttachmentReply(command: string): string
  {
    "i can't " + command + " what you don't send me :disappointed:"
  }

  function WrongTypeReply(command: string): string
  {
    "i can only " + command + " png and jpeg attachments :weary:"
  }

  function ArgumentCountReply(command: string): string
  {
    "ope, bad parameters, I need `" + command + " [maxWidth maxHeight]` :face_with_open_eyes_and_hand_over_mouth:"
  }

  function BadWidthReply(command: string, maxWidth: nat): string
  {
    "ope, bad parameters, for `" + command + " [maxWidth maxHeight]` I need `maxWidth` to be an integer no greater than "
      + Decimal(maxWidth) + " :face_with_open_eyes_and_hand_over_mouth:"
  }

  function BadHeightReply(command: string, maxHeight: nat): string
  {
    "ope, bad parameters, for `" + command + " [maxWidth maxHeight]` I need `maxHeight` to be an integer no greater than "
      + Decimal(maxHeight) + " :face_with_open_eyes_and_hand_over_mouth:"
  }

  function ConvertFailedReply(command: string): string
  {
    ":x: sorry, i couldn't " + command + " that :grimmace:"
  }

  function InlineReply(ascii: string): string
  {
    ":white_check_mark: asciified: :nerd:\n```" + ascii + "```"
  }

  /** The box used when no arguments are given: 60 x 30 inline, 256 x 128 for a file. */
  function DefaultBox(toFile: bool): (box: (nat, nat))
  {
    if toFile then (256, 128) else (60, 30)
  }

  /** An argument parses as an integer no greater than `limit`. */
  predicate ArgWithin(atoi: string -> Option<int>, arg: string, limit: int)
  {
    atoi(arg).Some? && atoi(arg).value <= limit
  }

  /**
    * The validation at the start of the asciify handler: exactly one attachment of
    * an image type, then either no arguments (the default box) or exactly two, a
    * width no greater than 60 and a height no greater than 30. `parts[0]` is the
    * command word.
    */
  function AsciifyCommand(attachments: seq<Attachment>, parts: seq<string>, toFile: bool,
                          atoi: string -> Option<int>): (r: Response)
    requires |parts| >= 1
    ensures r.Say? || r.Render?
    ensures |attachments| == 0 ==> r == Say(NoAttachmentReply(parts[0]))
    ensures |attachments| > 1 ==> r == Say(TooManyAttachmentsReply)
    ensures |attachments| == 1 && attachments[0].contentType !in ImageContentTypes ==>
      r == Say(WrongTypeReply(parts[0]))
    ensures r.Render? <==>
      |attachments| == 1 && attachments[0].contentType in ImageContentTypes &&
      (|parts| == 1 || (|parts| == 3 && ArgWithin(atoi, parts[1], 60) && ArgWithin(atoi, parts[2], 30)))
    ensures r.Render? ==>
      r.attachment == attachments[0] && r.toFile == toFile && r.command == parts[0] &&
      r.maxWidth <= DefaultBox(toFile).0 && r.maxHeight <= DefaultBox(toFile).1
    ensures |attachments| == 1 && attachments[0].contentType in ImageContentTypes && |parts| == 3 &&
            !ArgWithin(atoi, parts[1], 60) ==>
      r == Say(BadWidthReply(parts[0], DefaultBox(toFile).0))
    ensures |attachments| == 1 && attachments[0].contentType in ImageContentTypes && |parts| == 3 &&
            ArgWithin(atoi, parts[1], 60) && !ArgWithin(atoi, parts[2], 30) ==>
      r == Say(BadHeightReply(parts[0], DefaultBox(toFile).1))
  {
    if |attachments| == 0 then Say(NoAttachmentReply(parts[0]))
    else if |attachments| > 1 then Say(TooManyAttachmentsReply)
    else
      var attachment := attachments[0];
      if attachment.contentType !in ImageContentTypes then Say(WrongTypeReply(parts[0]))
      else
        var (maxWidth, maxHeight) := DefaultBox(toFile);
        if |parts| > 1 then
          if |parts| != 3 then Say(ArgumentCountReply(parts[0]))
          else if !ArgWithin(atoi, parts[1], 60) then Say(BadWidthReply(parts[0], maxWidth))
          else if !ArgWithin(atoi, parts[2], 30) then Say(BadHeightReply(parts[0], maxHeight))
          else Render(attachment, atoi(parts[1]).value, atoi(parts[2]).value, toFile, parts[0])
        else Render(attachment, maxWidth, maxHeight, toFile, parts[0])
  }

  /** Without arguments the box is the default one for the output kind. */
  lemma DefaultArguments(attachment: Attachment, command: string, toFile: bool, atoi: string -> Option<int>)
    requires attachment.contentType in ImageContentTypes
    ensures AsciifyCommand([attachment], [command], toFile, atoi) ==
      if toFile then Render(attachment, 256, 128, true, command)
      else Render(attachment, 60, 30, false, command)
  {
  }

  /**
    * With two arguments the box is exactly the parsed width and height; a width
    * above 60 or a height above 30 is refused for both output kinds, so the output
    * kind changes nothing but the wording of the refusal.
    */
  lemma ExplicitArguments(attachment: Attachment, command: string, w: string, h: string, toFile: bool,
                          atoi: string -> Option<int>)
    requires attachment.contentType in ImageContentTypes
    ensures var r := AsciifyCommand([attachment], [command, w, h], toFile, atoi);
      (r.Render? <==> ArgWithin(atoi, w, 60) && ArgWithin(atoi, h, 30)) &&
      (r.Render? ==> r == Render(attachment, atoi(w).value, atoi(h).value, toFile, command)) &&
      (r.Render? <==> AsciifyCommand([attachment], [command, w, h], !toFile, atoi).Render?)
  {
  }

  /** One or more than two arguments are refused, whatever they are. */
  lemma WrongArgumentCount(attachment: Attachment, parts: seq<string>, toFile: bool, atoi: string -> Option<int>)
    requires attachment.contentType in ImageContentTypes
    requires |parts| == 2 || |parts| > 3
    ensures AsciifyCommand([attachment], parts, toFile, atoi) == Say(ArgumentCountReply(parts[0]))
  {
  }

  /**
    * The width refusal names the default width of the output kind, not the limit
    * that was checked: `asciifile 100 20` is refused with "no greater than 256".
    */
  lemma FileWidthRefusalNamesDefault(attachment: Attachment, atoi: string -> Option<int>)
    requires attachment.contentType in ImageContentTypes
    requires atoi("100") == Some(100)
    ensures AsciifyCommand([attachment], ["asciifile", "100", "20"], true, atoi) ==
      Say(BadWidthReply("asciifile", 256))
    ensures Decimal(256) == "256"
  {
    assert !ArgWithin(atoi, "100", 60);
    assert Decimal(2) == "2";
    assert Decimal(25) == Decimal(2) + "5";
    assert Decimal(256) == Decimal(25) + "6";
  }

  /**
    * newMessage: ignore the bot's own messages and any message whose first
    * space-separated word is not the mention of the bot; a bare mention gets a
    * prompt; otherwise dispatch on the second word.
    */
  function NewMessage(botId: string, m: Message, atoi: string -> Option<int>): (r: Response)
    ensures r.Silent? <==> m.authorId == botId || Split(m.content, ' ')[0] != Mention(botId)
  {
    if botId == m.authorId then Silent
    else
      var parts := Split(m.content, ' ');
      if parts[0] != Mention(botId) then Silent
      else if |parts| == 1 then Say(NothingAskedReply)
      else
        var parts := parts[1..];
        if parts[0] == CmdHelp then ShowHelp(parts)
        else if parts[0] == CmdHi then Say(GreetingReply)
        else if parts[0] == CmdAsciify then AsciifyCommand(m.attachments, parts, false, atoi)
        else if parts[0] == CmdAsciifile then AsciifyCommand(m.attachments, parts, true, atoi)
        else Say(UnknownCommandReply)
  }

  // The lemmas below take a bot id without spaces, as Discord ids (digit snowflakes)
  // are: a mention holding a space never equals a space-split word, so the bot would
  // never answer.

  /**
    * A message from someone else is answered exactly when its text is the mention
    * of the bot or starts with the mention followed by a space.
    */
  lemma AnsweredIffMentioned(botId: string, m: Message, atoi: string -> Option<int>)
    requires ' ' !in botId && m.authorId != botId
    ensures !NewMessage(botId, m, atoi).Silent? <==>
      m.content == Mention(botId) || Mention(botId) + " " <= m.content
  {
    FirstPiece(m.content, Mention(botId), ' ');
  }

  /** A bare mention gets the prompt to say what is wanted. */
  lemma BareMention(botId: string, authorId: string, attachments: seq<Attachment>, atoi: string -> Option<int>)
    requires ' ' !in botId && authorId != botId
    ensures NewMessage(botId, Message(authorId, Mention(botId), attachments), atoi) == Say(NothingAskedReply)
  {
    SplitPiece(Mention(botId), ' ');
  }

  /**
    * A message written as the mention, a command word and argument words, separated
    * by single spaces, is dispatched on the command word: help and hi to their
    * handlers, asciify and asciifile to the same validation differing only in the
    * output kind, anything else to the "don't follow" reply.
    */
  lemma {:induction false} Dispatch(botId: string, authorId: string, command: string, args: seq<string>,
                                    attachments: seq<Attachment>, atoi: string -> Option<int>)
    requires ' ' !in botId && authorId != botId && ' ' !in command
    requires forall a :: a in args ==> ' ' !in a
    ensures var r := NewMessage(botId, Message(authorId, Join([Mention(botId), command] + args, ' '), attachments), atoi);
      (command == CmdHelp ==> r == ShowHelp([command] + args)) &&
      (command == CmdHi ==> r == Say(GreetingReply)) &&
      (command == CmdAsciify ==> r == AsciifyCommand(attachments, [command] + args, false, atoi)) &&
      (command == CmdAsciifile ==> r == AsciifyCommand(attachments, [command] + args, true, atoi)) &&
      (command !in [CmdHelp, CmdHi, CmdAsciify, CmdAsciifile] ==> r == Say(UnknownCommandReply))
  {
    var words := [Mention(botId), command] + args;
    forall w | w in words ensures ' ' !in w {
      if w !in args {
        assert w == Mention(botId) || w == command;
      }
    }
    SplitJoin(words, ' ');
    assert words[1..] == [command] + args;
  }

  /** The name of the text file: the downloaded file's name up to its last '.', then ".txt". */
  function TxtName(filename: string): string
    requires '.' in filename
  {
    filename[..LastIndex(filename, '.')] + ".txt"
  }

  /** Whatever the stem, its last extension is replaced by ".txt". */
  lemma TxtNameReplacesExtension(stem: string, ext: string)
    requires |ext| > 0 && ext[0] == '.' && '.' !in ext[1..]
    ensures '.' in stem + ext
    ensures TxtName(stem + ext) == stem + ".txt"
  {
    assert (stem + ext)[|stem|] == '.';
    LastIndexOfTail(stem, ext, '.');
    assert (stem + ext)[..|stem|] == stem;
  }

  /** The downloaded `<id>.png` is written out as `<id>.txt`, whatever the id. */
  lemma TxtNameOfDownload(id: string)
    ensures '.' in id + ".png"
    ensures TxtName(id + ".png") == id + ".txt"
  {
    TxtNameReplacesExtension(id, ".png");
  }

  /**
    * channelMessageSendWithFile: the file is attached when it can be opened
    * (`file` is its content, `None` when it does not exist); otherwise the wrapper
    * sends its own failure reply in place of the message.
    */
  function SendWithFile(text: string, fileName: string, file: Option<string>): Outgoing
  {
    match file
    case Some(content) => WithFile(text, fileName, content)
    case None => Text(OpenFailedReply)
  }

  /**
    * The rest of the asciify handler, once the box is resolved: download the
    * attachment to `<id>.png` (`downloaded` is whether that worked, `decoded` the
    * image read back from it), convert it, and reply inline or with a text file
    * (`written` is whether creating the file worked). A failed write is reported,
    * and then sending the file fails as well, since there is no file to open.
    */
  method Convert<Color>(command: string, maxWidth: int, maxHeight: int, toFile: bool, id: string,
                        downloaded: bool, decoded: Option<array2<Color>>, toGray: Color -> Asciify.Gray,
                        written: bool)
    returns (sent: seq<Outgoing>)
    ensures !downloaded ==> sent == [Text(DownloadFailedReply)]
    ensures downloaded && (maxWidth == 0 || maxHeight == 0 || decoded.None? ||
                           decoded.value.Length0 == 0 || decoded.value.Length1 == 0) ==>
      sent == [Text(ConvertFailedReply(command))]
    ensures downloaded && maxWidth != 0 && maxHeight != 0 && decoded.Some? &&
            decoded.value.Length0 >= 1 && decoded.value.Length1 >= 1 ==>
      var img := decoded.value;
      var p := Asciify.Fit(maxWidth, maxHeight, img.Length0, img.Length1);
      var ascii := Asciify.Rendering(img, toGray, p, Asciify.Rows(p));
      sent == if !toFile then [Text(InlineReply(ascii))]
              else if written then [WithFile(FileDoneReply, id + ".txt", ascii)]
              else [Text(WriteFailedReply), Text(OpenFailedReply)]
  {
    var filename := id + ".png";
    if !downloaded {
      return [Text(DownloadFailedReply)];
    }
    Asciify.ExtensionAfterStem(id, ".png");
    assert ToLower(".png") == ".png";
    var ascii, err := Asciify.Asciify(filename, maxWidth, maxHeight, decoded, toGray);
    if err.Some? {
      return [Text(ConvertFailedReply(command))];
    }
    if toFile {
      TxtNameOfDownload(id);
      var outFilename := TxtName(filename);
      sent := [];
      if !written {
        sent := sent + [Text(WriteFailedReply)];
      }
      sent := sent + [SendWithFile(FileDoneReply, outFilename, if written then Some(ascii) else None)];
    } else {
      sent := [Text(InlineReply(ascii))];
    }
  }
}
