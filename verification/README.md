# An FTP and WebDAV server, modelled and verified

This project models the parts of a small FTP and WebDAV server that carry unbounded
properties, and proves them for every input, every run and every way the network may cut
its streams. Sockets, the file system and code-page conversions are left to the environment:
a socket hands out arbitrary non-empty pieces of a stream, and the file system answers as it
likes.

- **Encodings.** `Utf`, `Utf8Acceptor`, `Utf8Canonical` and `Utf8Order` are the UTF-8, UTF-16
  and UTF-32 loops, the acceptor automaton, the exact sets of strings each trip preserves, and
  order preservation; they work on bit vectors of the source's widths, and `Pairing` holds the
  part of the surrogate argument that has nothing to do with bits. `Base64` is the pair of
  buffer loops. `UtfLayout` and `Base64Layout` say in arithmetic which bits go where. `Splitting`
  is the tokenisers, specified by a tokeniser that reads one character at a time. `UrlCodec` is
  percent-encoding and the file-name encoding.
- **HTTP and WebDAV.** `RequestLine` and `Headers` are the text formats. `Network` and
  `BodyFraming` are the framing of requests and the copy loop that relies on it, `KeepAlive` is
  the loop over the requests of one connection, `Upload` a PUT request from its text to the file.
  `DavXml` is the document builder with a scanner that reads documents back, `Propfind` the handler
  on top.
- **FTP.** `FtpFraming` cuts the control connection into lines. `FtpCommands` parses them,
  `FtpState` says what each command does, `FtpSession` is the session object with its handlers
  and its loop, and `FtpHistory` gives every field as a function of the commands so far.
  `FtpRules` says cause by cause what each command is answered with and asks of the file system,
  `FtpFiles` what that does to the files, and `Confinement` when a client stays beneath the root.
- **Files.** `TextMode` is what the C library does to line ends, `FileTransfer` the data
  connection's copy loops, `Paths` the relative path computation, `UserStore` the user file.
  `Text` holds what the rest relies on of `std::string`.

Methods and classes have the loops and fields of the source and are proved against functions;
the lemmas then say what those functions mean. A string holds one character per byte.

Where the code differs from what its names, comments or the standards suggest, the model
follows the code:

- PASV leaves the connection type alone, so after one PORT every data connection is active.
- RNTO leaves the pending source set. QUIT is answered with 421, where section 4.2 of RFC 959
  has 221.
- `PathResolver::resolve` compares strings: a path passes when the root's text is a prefix of it,
  so a directory beside the root whose name starts with the root's can be entered
  (`Confinement.SiblingIsEntered`). Exactly when a client is confined is proved in `Confinement`.
- `resolve` makes the path canonical first, which fails where nothing is: no command creates
  anything under a new name except by renaming (`FtpFiles.OnlyRenamesMakePaths`).
- Data files are opened in mode "r+", a text-mode stream on Windows: downloads lose the carriage
  return of every line end and stop at a control-Z, uploads gain a carriage return before every
  line feed. `TextMode` and `FileTransfer` prove exactly which bytes arrive unchanged. The comment
  at async_fs.hpp:91 promises binary mode.
- `parse_request_line` is given the whole header block, so when a header follows, the third word runs
  on into it; a word that runs on over a line end names no version (`RequestLine.LineEndHidesVersion`)
  and the version of an upload is UNKNOWN (`Upload.LineOfHead`).
- `read_command` reads before it looks at its buffer, so a second line in one segment waits for
  the next read.
- `CNtFile::Read` and `Write` ignore their offset, so for every offset other than 0 there are files
  whose bytes are sent wrong.
- `encodeFilename` leaves `%` alone, so names with percent signs may not survive decoding.
- `parse_request` leaves the bytes of a body in its buffer, and looks at the buffer through the
  length of the last read, so a request that follows a body may be misread
  (`KeepAlive.RequestBehindBodyIsMisread`; section 9.3 of RFC 9112 wants it answered). The next
  request is read as on a fresh connection exactly when the buffer was empty, the first read ended
  at the blank line and no length was announced.
- The loop of `split_by` never ends on an empty pattern, and ends on every other one.
- PROPFIND with a depth other than 0, 1 or none answers with an empty multistatus.
- A UTF-8 lead byte of 0xF8 or above makes the decoder throw although the acceptor allows it.
- Saving a user whose permission is EXECUTE or FULL loses the permission.

## Model

| member | source | states |
|---|---|---|
| Utf.Utf8ToUtf32 | netfiles/src/stringUtil.h:41-74 | the decoding loop computes `DecodeUtf8`: code points, or the exception, or a position past the end |
| Utf.ReadUtf8 | netfiles/src/stringUtil.h:46-71 | one turn of the loop: the next code point and the index behind it, or why the loop stops |
| Utf.AppendUtf8 | netfiles/src/stringUtil.h:81-97 | one code point appends its `EncodePoint` bytes |
| Utf.Utf32ToUtf8 | netfiles/src/stringUtil.h:77-100 | the encoding loop computes `EncodeUtf8` |
| Utf.DecodeOneUtf16 | netfiles/src/stringUtil.h:103-115 | reads one code point, pairing surrogates only when both are there, and advances past it |
| Utf.AppendUtf16 | netfiles/src/stringUtil.h:117-125 | one code point appends one unit or a surrogate pair, cut to 16 bits |
| Utf.Utf16ToUtf32 | netfiles/src/stringUtil.h:140-152 | the loop computes `DecodeUtf16` |
| Utf.Utf32ToUtf16 | netfiles/src/stringUtil.h:128-137 | the loop computes `EncodeUtf16` |
| Utf.ConvertFromUtf16 | netfiles/src/stringUtil.h:183-191 | UTF-16 to UTF-8 is the composition of the two codecs |
| Utf.ConvertToUtf16 | netfiles/src/stringUtil.h:183-191 | UTF-8 to UTF-16 is the composition of the two codecs, exceptions included |
| Utf.DecodeEncodedPoint | netfiles/src/stringUtil.h:45-97 | an encoded code point decodes to its low 21 bits, or makes the decoder throw when bit 21 is set |
| Utf.Utf32ThroughUtf8 | netfiles/src/stringUtil.h:41-100 | UTF-8 gives a list of 32-bit code points back if and only if all are below 0x200000 |
| Utf.Utf16ThroughUtf32 | netfiles/src/stringUtil.h:103-152 | every sequence of 16-bit units survives the trip through UTF-32, lone surrogates included |
| Utf.Utf32ThroughUtf16 | netfiles/src/stringUtil.h:103-152 | UTF-16 gives code points back if and only if all are below 0x110000 and no high surrogate is directly followed by a low one |
| Utf.Utf16ThroughUtf8 | netfiles/src/stringUtil.h:41-152 | every sequence of 16-bit units survives the trip through UTF-8 and back: all four loops composed |
| UtfLayout.Encoding1 | netfiles/src/stringUtil.h:81-82 | one byte, the code point itself |
| UtfLayout.Encoding2 | netfiles/src/stringUtil.h:83-86 | two bytes: the lead is 0xC0 plus the code point divided by 64, the tail 0x80 plus the remainder |
| UtfLayout.Encoding3 | netfiles/src/stringUtil.h:87-90 | three bytes, six bits in each tail, the highest first |
| UtfLayout.Encoding4 | netfiles/src/stringUtil.h:91-95 | four bytes, six bits in each tail, the highest first |
| UtfLayout.DecodingIs | netfiles/src/stringUtil.h:46-71 | what the first byte of any string makes of it, in arithmetic: the code point and the rest, the exception for 0x80 to 0xBF and from 0xF8 on, or a position past the end; of the bytes that follow only six bits count |
| UtfLayout.ShortUnits | netfiles/src/stringUtil.h:117-119 | a code point below 0x10000 is one unit of the same value |
| UtfLayout.PairedUnits | netfiles/src/stringUtil.h:120-124 | any other Unicode code point is 0xD800 and 0xDC00 plus the quotient and the remainder by 0x400, high first |
| UtfLayout.PairDecodes | netfiles/src/stringUtil.h:103-115 | a high surrogate right in front of a low one takes that along: 0x10000 plus 0x400 times the one plus the other, each counted from its base |
| UtfLayout.UnitDecodes | netfiles/src/stringUtil.h:103-115 | every other unit stands for itself |
| Utf8Acceptor.HighLen | netfiles/src/webdav/Encoding.hpp:79-86 | the shifting loop terminates and counts the leading one bits |
| Utf8Acceptor.CheckUtf8 | netfiles/src/webdav/Encoding.hpp:78-101 | the automaton loop accepts exactly `IsUtf8` |
| Utf8Acceptor.AcceptedIsSegmented | netfiles/src/webdav/Encoding.hpp:78-101 | the automaton accepts exactly the strings made of whole segments: a byte below 0x80, or a byte with two to eight leading ones and one `10xxxxxx` byte less than that |
| Utf8Acceptor.LeadingOnesAre | netfiles/src/webdav/Encoding.hpp:79-86 | how many leading ones a byte has, from its value |
| Utf8Acceptor.SegmentOfAccepted | netfiles/src/webdav/Encoding.hpp:87-100 | an accepted string starts with a whole sequence, and the rest is accepted |
| Utf8Acceptor.Lockstep | netfiles/src/webdav/Encoding.hpp:87-100 | at every index the decoding loop takes on an accepted string the automaton is in state 0; the loop keeps `i in Positions(input, 0)` as an invariant |
| Utf8Acceptor.AcceptedIsDecodable | netfiles/src/webdav/Encoding.hpp:78-101 | on an accepted string the decoder never reads past the end; it succeeds if and only if no lead byte is 0xF8 or above |
| Utf8Canonical.EncodingIsAccepted | netfiles/src/stringUtil.h:77-100 | the acceptor accepts the encoding of a list if and only if no code point has bit 21 set, so of every list below 0x200000 |
| Utf8Canonical.ReencodeSegment | netfiles/src/stringUtil.h:45-97 | re-encoding one decoded sequence gives the same bytes, or fewer when it was overlong |
| Utf8Canonical.ReencodeAccepted | netfiles/src/stringUtil.h:41-100 | re-encoding an accepted, decodable string never lengthens it and gives it back if and only if nothing in it is overlong |
| Utf8Canonical.Utf8FixedPoints | netfiles/src/stringUtil.h:41-100 | decoding and encoding leave a byte string alone if and only if it is accepted, has no lead of 0xF8 or above and no overlong form |
| Utf8Order.Utf8KeepsOrder | netfiles/src/stringUtil.h:835-862 | below 0x200000, comparing encodings byte by byte is comparing the code points |
| Utf8Order.CompareIs | netfiles/src/stringUtil.h:835-862 | a text comes before its continuations, and otherwise the first difference decides |
| Base64Layout.Alphabet | netfiles/src/webdav/Encoding.hpp:380 | the ranges used for digits are the table of 64 characters |
| Base64.EncodeLoop | netfiles/src/webdav/Encoding.hpp:386-410 | the loop over the two buffers computes `Encode` |
| Base64.AppendGroup | netfiles/src/webdav/Encoding.hpp:388-397 | a full buffer appends four characters |
| Base64.AppendEnd | netfiles/src/webdav/Encoding.hpp:399-409 | a partly filled buffer appends its characters and the padding |
| Base64.DecodeLoop | netfiles/src/webdav/Encoding.hpp:412-440 | the loop over the two buffers computes `Decode`, which stops at the first `=` or foreign character |
| Base64.AppendFull | netfiles/src/webdav/Encoding.hpp:421-431 | four characters append three bytes |
| Base64.AppendRest | netfiles/src/webdav/Encoding.hpp:433-439 | fewer characters append one byte less than their number |
| Base64.CheckBase64 | netfiles/src/webdav/Encoding.hpp:196-204 | the loop accepts exactly the strings of table characters whose last two may also be `=`; in a string of one character the subtraction wraps around and `=` is refused |
| Base64.DecodeUndoesEncode | netfiles/src/webdav/Encoding.hpp:378-441 | decoding the encoding of any byte sequence gives it back |
| Base64.EncodingIsCanonical | netfiles/src/webdav/Encoding.hpp:378-411 | an encoding has length 4*ceil(n/3) and is canonically padded |
| Base64.EncodeDecodeFixedPoints | netfiles/src/webdav/Encoding.hpp:378-441 | encoding the decoding of a text gives it back if and only if the text is canonically padded |
| Base64.EncodingPassesCheck | netfiles/src/webdav/Encoding.hpp:196-204 | every encoding passes the check |
| Base64Layout.EncodesThree | netfiles/src/webdav/Encoding.hpp:388-397 | three bytes become the four digits to the base 64 of their number |
| Base64Layout.EncodesTwo | netfiles/src/webdav/Encoding.hpp:399-409 | two bytes become three digits and one equals sign |
| Base64Layout.EncodesOne | netfiles/src/webdav/Encoding.hpp:399-409 | one byte becomes two digits and two equals signs |
| Base64Layout.DecodesFour | netfiles/src/webdav/Encoding.hpp:421-431 | four digits become the three bytes of their number |
| Base64Layout.DecodesThree | netfiles/src/webdav/Encoding.hpp:433-439 | three digits at the end become two bytes; bits that are left over do not count |
| Base64Layout.DecodesTwo | netfiles/src/webdav/Encoding.hpp:433-439 | two digits at the end become one byte, and a single digit is lost |
| Base64Layout.DecodeStops | netfiles/src/webdav/Encoding.hpp:420 | whatever follows the first character outside the alphabet does not count |
| Base64Layout.CheckIs | netfiles/src/webdav/Encoding.hpp:196-204 | the check accepts exactly the strings of alphabet characters, of which the last two may be equals signs |
| Splitting.SplitLoop | netfiles/src/stringUtil.h:953-992 | the `find` loop yields the tokens a character-by-character tokeniser finds |
| Splitting.RunsLoop | netfiles/src/stringUtil.h:995-1015 | the loop over runs yields the same tokens as `split` without empty parts |
| Splitting.SplitByLoop | netfiles/src/stringUtil.h:1018-1033 | the loop computes the parts between matches of a pattern, with the matches if they are kept |
| Splitting.SplitByEndsIff | netfiles/src/stringUtil.h:1018-1033 | the loop ends, on any string, if and only if the pattern is not empty |
| Splitting.SkippingIsDropping | netfiles/src/stringUtil.h:953-992 | skipping empty parts while splitting is dropping them afterwards |
| Splitting.JoinLoop | netfiles/src/stringUtil.h:1213-1224 | the loop puts the separator between the pieces |
| Splitting.JoinUndoesSplit | netfiles/src/stringUtil.h:953-971 | joining the parts of a string gives the string back |
| Splitting.SplitUndoesJoin | netfiles/src/core/utils.hpp:19-33 | splitting a joined list gives it back if and only if it is non-empty and no part has the separator |
| Splitting.SplitAtAnyOf | netfiles/src/stringUtil.h:953-992 | splitting at any of several delimiters is splitting at one that stands for all of them |
| Splitting.JoinUndoesSplitBy | netfiles/src/stringUtil.h:1018-1033 | joining the parts between matches gives the string back, and no part contains the pattern |
| Splitting.KeptPartsConcatenate | netfiles/src/stringUtil.h:1018-1033 | with the matches kept the parts concatenate to the string |
| Splitting.FirstPartIsShortest | netfiles/src/stringUtil.h:1018-1033 | the first part ends at the first match |
| UrlCodec.EncodeUrlLoop | netfiles/src/webdav/http_parser.cpp:268-281 | the loop computes `EncodeUrl` |
| UrlCodec.EncodeFilenameLoop | netfiles/src/webdav/http_parser.cpp:311-330 | the loop computes `EncodeFilename`, which leaves `%` alone |
| UrlCodec.DecodeUrlLoop | netfiles/src/webdav/http_parser.cpp:246-266 | the loop computes `DecodeUrl`, with the two-character hexadecimal read as the stream does it |
| UrlCodec.EscapeDecodes | netfiles/src/webdav/http_parser.cpp:246-266 | a percent sign and two hexadecimal digits, each in upper or lower case, stand for sixteen times the first plus the second |
| UrlCodec.HalfEscapeDecodes | netfiles/src/webdav/http_parser.cpp:246-266 | one digit is enough in front of something else, unless that makes it a lone `0x`, or behind white space or a sign; a minus sign takes the value from 256 |
| UrlCodec.NoEscapeDecodes | netfiles/src/webdav/http_parser.cpp:246-266 | in every other case the percent sign stands for itself |
| UrlCodec.EncodesByte | netfiles/src/webdav/http_parser.cpp:268-281 | letters, digits and four marks stay, every other byte becomes a percent sign and two upper-case digits, the high one first |
| UrlCodec.EncodesFilenameByte | netfiles/src/webdav/http_parser.cpp:311-330 | the space and the bytes from 0x80 on are written that way, all others stay |
| UrlCodec.DecodeUndoesEncodeUrl | netfiles/src/webdav/http_parser.cpp:246-281 | decoding undoes percent-encoding for every byte string |
| UrlCodec.DecodeShortens | netfiles/src/webdav/http_parser.cpp:246-266 | decoding changes a string if and only if it contains an escape, and then shortens it |
| UrlCodec.FilenameDecodedOnce | netfiles/src/webdav/http_parser.cpp:311-330 | a file name survives one decoding if and only if no percent sign of it starts an escape after encoding |
| UrlCodec.FilenameDecodedTwice | netfiles/src/webdav/dav_handler.cpp:107-109 | a file name survives the decodings of the request line and of `resolve_path` if and only if it has no escape before or after encoding |
| UrlCodec.PercentFreeSurvives | netfiles/src/webdav/dav_handler.cpp:107-109 | every name without a percent sign survives both decodings |
| UrlCodec.DecodingsDiffer | netfiles/src/webdav/http_parser.cpp:246-330 | a name that the first decoding leaves alone and the second one damages |
| UrlCodec.EncodingCommutesWithSplitting | netfiles/src/core/utils.hpp:19-33 | encoding a path and splitting it at slashes gives the encoded components |
| RequestLine.MethodNames | netfiles/src/webdav/http_parser.cpp:179-211 | the two method tables are inverse, and no name contains a blank |
| RequestLine.MethodsAreSpelled | netfiles/src/webdav/http_parser.cpp:179-211 | which text is which method; no other text is one |
| RequestLine.VersionIsThirdWord | netfiles/src/webdav/http_parser.cpp:98-113 | the version is that of the third word, if any, and the rest is ignored |
| RequestLine.RefusedLines | netfiles/src/webdav/http_parser.cpp:89-97 | a line is refused if and only if it has no second word or its first is no method |
| RequestLine.LineEndHidesVersion | netfiles/src/webdav/http_parser.cpp:39-41 | a third word that runs on over a line end names no version |
| RequestLine.RequestLineReadsBack | netfiles/src/webdav/http_parser.cpp:85-115 | every method and path, written as a request line with `encode_url`, parse back |
| Headers.ReadField | netfiles/src/webdav/http_parser.cpp:121-147 | one header line is split at its colon, the key lower-cased, the value stripped of leading blanks |
| Headers.BlanksAreTrimmed | netfiles/src/webdav/http_parser.cpp:138-140 | all leading blanks and tabs go, and nothing else |
| Headers.StoulReads | netfiles/src/webdav/http_parser.cpp:172 | what `stoul` makes of a decimal number behind any white space and a sign, whatever follows: the number, 2^32 minus it, or the exception above 2^32 - 1 |
| Headers.StoulRefuses | netfiles/src/webdav/http_parser.cpp:172 | without a digit it throws |
| Text.LettersChangeCase | netfiles/src/webdav/http_parser.cpp:142-144 | upper-case and lower-case letters correspond |
| Text.OthersKeepCase | netfiles/src/webdav/http_parser.cpp:142-144 | no other character is changed |
| Text.CaseCharacterByCharacter | netfiles/src/core/utils.hpp:61-68 | texts change case character by character |
| Text.OneCrIsDropped | netfiles/src/webdav/http_parser.cpp:126-129 | one carriage return at the end of a line goes, and no more |
| Text.DecimalIsPositional | netfiles/src/webdav/http_parser.cpp:228 | decimal numbers are positional |
| Headers.HttpRequest.ParseHeaderBlock | netfiles/src/webdav/http_parser.cpp:117-177 | the loop over the lines fills the map, the length and the members that hold copies of single fields, or throws; the copies agree with the map |
| Headers.HttpRequest.Store | netfiles/src/webdav/http_parser.cpp:148-174 | stores one field in the map and in the member that copies it |
| Headers.GenerateResponse | netfiles/src/webdav/http_parser.cpp:223-244 | the text is the status line, the headers in map order, a blank line and the body |
| Headers.ResponseReadsBack | netfiles/src/webdav/http_parser.cpp:223-244 | read back, the first line has `HTTP/1.1`, the status code and the message, and line by line each header follows with its key as it is in the map |
| Headers.LengthFromHeader | netfiles/src/webdav/http_parser.cpp:56-58 | the length read by the header loop is what `stoul` makes of the `content-length` entry in the final map; `StoulReads` says what that is |
| Headers.NoEarlyBlank | netfiles/src/webdav/http_parser.cpp:31-37 | no blank line occurs inside plain header lines nor across their end |
| Headers.ResponseParsesBack | netfiles/src/webdav/http_parser.cpp:117-244 | for every iteration order the first blank line ends the headers and parsing the block restores the map under lower-cased keys; the conditions are distinct lower-cased keys, plain keys and values, a plain status message, and a numeric content length |
| Network.Socket.ReadSome | netfiles/src/webdav/http_parser.cpp:23-26 | a read returns between one and the requested number of the next bytes, or fails at the end of the stream |
| Network.Socket.Send | netfiles/src/ftp/data_channel.cpp:151-160 | a send takes between one and all of the bytes offered |
| BodyFraming.ReadHead | netfiles/src/webdav/http_parser.cpp:39-58 | request line, then headers, then the announced length |
| BodyFraming.Connection.ReadBody | netfiles/src/webdav/http_parser.cpp:65-76 | the loop yields exactly the announced bytes whatever the reads return, or fails at the end of the stream; nothing is lost |
| BodyFraming.Connection.ParseRequest | netfiles/src/webdav/http_parser.cpp:15-83 | for every buffer the outcome is `Framed` of the bytes looked at and the size of the first read alone; the buffer and the socket together still hold all bytes after the header block, and the new length of the buffer is stated exactly |
| BodyFraming.FramingIgnoresFragmentation | netfiles/src/webdav/http_parser.cpp:55-80 | the outcome is that of the unfragmented stream if and only if there is no blank line, or the first read holds the header block and, if a length is announced, no more than the body; a shorter first read gives the same only where the request line is invalid |
| BodyFraming.BodyIsLongEnough | netfiles/src/webdav/http_parser.cpp:60-79 | a parsed body holds at least the announced bytes, which follow the header block |
| BodyFraming.SeenIsStream | netfiles/src/webdav/http_parser.cpp:18-26 | the bytes looked at are the stream, for every stream and every first read, if and only if the buffer is empty |
| BodyFraming.PutTerminatesIff | netfiles/src/webdav/dav_resource.cpp:43-66 | the copy loop ends if and only if the input holds as many bytes as asked for |
| BodyFraming.Put | netfiles/src/webdav/dav_resource.cpp:43-66 | the copy loop writes exactly the first `size` bytes |
| BodyFraming.ProcessPut | netfiles/src/webdav/dav_handler.cpp:228-258 | 404, 403, 405, an exception or 201, each exactly when the file system answers so; with 201 the file holds the announced bytes of the body |
| BodyFraming.ReceivePut | netfiles/src/webdav/dav_handler.cpp:228-258 | for every parsed request the reply is the one of `ProcessPut`, the copy loop ends, and what is written are exactly the announced bytes after the header block |
| Upload.UploadIsFramed | netfiles/src/webdav/http_parser.cpp:15-83 | for every method, path and body, the request with `Content-Length` and the decimal length is framed with that length and exactly that body, however it arrives, once the first read holds its header block; cut short, it fails |
| Upload.LongReadIsTaken | netfiles/src/webdav/http_parser.cpp:55-80 | when the first read runs past the announced length, all it returned counts as body |
| Upload.StoreUpload | netfiles/src/webdav/dav_handler.cpp:228-258 | sent on a fresh connection, the body ends up in the file and 201 is answered |
| Upload.LineOfHead | netfiles/src/webdav/http_parser.cpp:39-41 | behind the first line of the header block there is no line end for `parse_request_line`: the version of such a request is UNKNOWN |
| KeepAlive.ParseNext | netfiles/src/webdav/dav_handler.cpp:27-30 | after a request the buffer is empty, so that the next one is read as on a fresh connection, if and only if it was empty, the first read ended at the blank line and no length was announced |
| KeepAlive.ServeTwo | netfiles/src/webdav/dav_handler.cpp:27-30 | two requests on one connection: the second is read from exactly the bytes behind the header block of the first, the body included, and what is left in the buffer is stated |
| KeepAlive.RequestIsUnderstood | netfiles/src/webdav/http_parser.cpp:15-83 | on a fresh connection every method and path is understood |
| KeepAlive.RequestBehindBodyIsMisread | netfiles/src/webdav/dav_handler.cpp:27-30 | behind any non-empty body without a carriage return the same request, returned by one read, is an invalid request line |
| DavXml.EscapeXmlLoop | netfiles/src/webdav/dav_namespaces.hpp:170-186 | the loop computes `EscapeXml` |
| DavXml.EscapesFive | netfiles/src/webdav/dav_namespaces.hpp:170-186 | which characters become which entities; every other stays |
| DavXml.UnescapeUndoesEscape | netfiles/src/webdav/dav_namespaces.hpp:170-186 | reading the five entities back restores every string |
| DavXml.EscapedHasNoTag | netfiles/src/webdav/dav_namespaces.hpp:170-186 | escaped text contains no `<` |
| DavXml.ScanFindsTokens | netfiles/src/webdav/dav_namespaces.hpp:39-186 | a scanner reading one character at a time finds exactly the tags and texts a document was written from, with no text or tag left over |
| DavXml.PrologText | netfiles/src/webdav/dav_namespaces.hpp:43-46 | how every document starts, literally |
| DavXml.DavXmlBuilder.AddDeclaration | netfiles/src/webdav/dav_namespaces.hpp:43-46 | appends the XML declaration |
| DavXml.DavXmlBuilder.StartMultistatus | netfiles/src/webdav/dav_namespaces.hpp:148-151 | appends the opening tag with its namespace |
| DavXml.DavXmlBuilder.StartResponse | netfiles/src/webdav/dav_namespaces.hpp:55-59 | appends the opening tag and the escaped href |
| DavXml.DavXmlBuilder.EndResponse | netfiles/src/webdav/dav_namespaces.hpp:62-65 | appends the closing tag |
| DavXml.DavXmlBuilder.StartPropstat | netfiles/src/webdav/dav_namespaces.hpp:68-71 | appends the opening tag |
| DavXml.DavXmlBuilder.EndPropstat | netfiles/src/webdav/dav_namespaces.hpp:74-77 | appends the closing tag |
| DavXml.DavXmlBuilder.StartProp | netfiles/src/webdav/dav_namespaces.hpp:80-83 | appends the opening tag |
| DavXml.DavXmlBuilder.EndProp | netfiles/src/webdav/dav_namespaces.hpp:86-89 | appends the closing tag |
| DavXml.DavXmlBuilder.AddStatus | netfiles/src/webdav/dav_namespaces.hpp:92-95 | appends the status element; the document stays readable if the message has no `<` |
| DavXml.DavXmlBuilder.AddContentLength | netfiles/src/webdav/dav_namespaces.hpp:98-101 | appends the size in decimal |
| DavXml.DavXmlBuilder.AddLastModified | netfiles/src/webdav/dav_namespaces.hpp:104-107 | appends the date, which is not escaped; the document stays readable if it has no `<` |
| DavXml.DavXmlBuilder.AddResourceType | netfiles/src/webdav/dav_namespaces.hpp:110-117 | appends an empty element, or one around `D:collection` |
| DavXml.DavXmlBuilder.AddCreationDate | netfiles/src/webdav/dav_namespaces.hpp:120-123 | appends the date, which is not escaped; the document stays readable if it has no `<` |
| DavXml.DavXmlBuilder.AddDisplayName | netfiles/src/webdav/dav_namespaces.hpp:126-130 | appends the escaped name |
| DavXml.DavXmlBuilder.EndMultistatus | netfiles/src/webdav/dav_namespaces.hpp:154-157 | appends the closing tag |
| DavXml.DavXmlBuilder.Build | netfiles/src/webdav/dav_namespaces.hpp:159-161 | moves the document out; if it stayed readable, scanning it gives the tokens appended since the last build with nothing left over |
| Propfind.GetProperties | netfiles/src/webdav/dav_resource.cpp:115-119 | a file appends five properties, a collection three, in this order |
| Propfind.AddResponse | netfiles/src/webdav/dav_handler.cpp:341-349 | one response element around one propstat |
| Propfind.AddChildren | netfiles/src/webdav/dav_handler.cpp:355-377 | the loop adds a response for each entry other than `.` and `..` for which a resource exists |
| Propfind.ReadResponse | netfiles/src/webdav/dav_handler.cpp:341-349 | read back, a response leaves the open elements as they were and adds one report |
| Propfind.ReadDocument | netfiles/src/webdav/dav_handler.cpp:329-380 | every document is balanced and its reports are those of `Reports` |
| Propfind.ReportSays | netfiles/src/webdav/dav_resource.cpp:88-123 | the report on a file: its path, no `D:collection`, its size in decimal, its date twice, its encoded name and status 200; the report on a collection: its path, `D:collection`, the epoch, its encoded name and status 200 |
| Propfind.DepthDecides | netfiles/src/webdav/dav_handler.cpp:333-355 | one report without a depth and at depth 0; at depth 1 those on the entries of a collection follow; none at any other depth |
| Propfind.ChildIsReported | netfiles/src/webdav/dav_handler.cpp:355-377 | one report on each entry other than `.` and `..` for which a resource exists, under the path of the directory, a slash unless that ends in one, and the name |
| Propfind.ReportsAddUp | netfiles/src/webdav/dav_handler.cpp:355-377 | the reports on the entries of a directory are those on each of them, in order |
| Propfind.ProcessPropfind | netfiles/src/webdav/dav_handler.cpp:321-390 | for every depth the reply is a document that ends outside any text or tag, is balanced, starts with the declaration and the namespace, and holds exactly the reports `Reports` lists, in order; or 404 for an unresolved path |
| Propfind.TargetsDecode | netfiles/src/webdav/dav_handler.cpp:361-365 | a client that decodes an href gets the name back if it has no percent sign |
| UserStore.FileUserStore.constructor | netfiles/src/security/access_control.cpp:12-16 | a new store holds what the text-mode reader sees of its file |
| UserStore.FileUserStore.LoadUsers | netfiles/src/security/access_control.cpp:18-67 | the loop adds each line that parses to the map; the text ends at a control-Z and line ends are joined |
| UserStore.FileUserStore.SaveUsers | netfiles/src/security/access_control.cpp:99-119 | the file becomes one line per user, in some order of the map, each line ended by CR LF |
| UserStore.FileUserStore.AddUser | netfiles/src/security/access_control.cpp:93-97 | the map gains the user and is saved |
| UserStore.LineIsRead | netfiles/src/security/access_control.cpp:30-65 | a line of five or more fields is name, hash, directory, permission and whether the user is enabled; the words for permissions and for enabled are spelled out |
| UserStore.ShortLineIsSkipped | netfiles/src/security/access_control.cpp:43-45 | a line of fewer fields is skipped |
| UserStore.LineIsWritten | netfiles/src/security/access_control.cpp:105-118 | what is written for a user, field by field |
| UserStore.SavedUsersReload | netfiles/src/security/access_control.cpp:18-119 | saving and loading restores the map, in any order of iteration, if and only if every user fits the file format: no colon, line feed or control-Z in a field, and a permission the format has a name for |
| UserStore.LoadedUsersAreClean | netfiles/src/security/access_control.cpp:18-67 | whatever the file holds, the users loaded from it fit the file format |
| UserStore.RestartAfterAdding | netfiles/src/security/access_control.cpp:93-97 | after any sequence of `add_user` calls with users that fit, a restart restores the map |
| TextMode.ReadUnchanged | netfiles/src/core/async_fs.hpp:105-118 | the first `n` bytes read are the first `n` bytes of the file if and only if there is no control-Z and no line end among them |
| TextMode.WrittenTextReadsBack | netfiles/src/core/async_fs.hpp:105-128 | text written over the start of a file is read back if and only if it has no control-Z and nothing behind it can be read |
| TextMode.ReadsCharacter | netfiles/src/core/async_fs.hpp:105-118 | reading, character by character: a line end becomes a line feed, byte 26 ends the text, everything else stays |
| TextMode.WritesCharacter | netfiles/src/core/async_fs.hpp:119-128 | writing, character by character |
| FileTransfer.OverwrittenAt | netfiles/src/core/async_fs.cpp:274-289 | the data where it was written, the old file everywhere else |
| FileTransfer.AsyncFileBuffered.Read | netfiles/src/core/async_fs.cpp:259-272 | the text-mode read: hands out the next `size` bytes of the translated rest of the file, or all of it, and advances the offset by their number |
| FileTransfer.AsyncFileBuffered.Write | netfiles/src/core/async_fs.cpp:274-289 | the text-mode write: writes CR LF for every line feed where the C stream stands, without truncating; offset and size grow by the number of bytes before translation |
| FileTransfer.AsyncFileBuffered.Seek | netfiles/src/core/async_fs.cpp:291-297 | moves the offset only, or throws past the end |
| FileTransfer.SendAll | netfiles/src/ftp/data_channel.cpp:149-162 | the inner loop sends the whole buffer whatever each send takes |
| FileTransfer.SendFile | netfiles/src/ftp/data_channel.cpp:129-169 | exactly the first `min(max_bytes, size)` bytes of the translated file go out in order and are counted, and the offset equals the start plus their number |
| FileTransfer.SentIsRequested | netfiles/src/core/async_fs.hpp:84-118 | at offset 0 those are the bytes requested if and only if none of them is a control-Z and none starts a line end |
| FileTransfer.LineEndIsLost | netfiles/src/core/async_fs.hpp:84-118 | a file with a line end is sent one byte short |
| FileTransfer.OffsetMustBeZero | netfiles/src/core/async_fs.hpp:119-128 | at any other offset there are files, untouched by text mode, whose bytes are sent wrong; at offset 0 there are none |
| FileTransfer.ReceiveFile | netfiles/src/ftp/data_channel.cpp:171-211 | an upload overwrites the start of the file with the translation of the bytes received; the end of the connection throws |
| FileTransfer.ReceivedIsStored | netfiles/src/core/async_fs.hpp:119-128 | the file gets the bytes received if and only if none of them is a line feed |
| FileTransfer.UploadThenDownload | netfiles/src/core/async_fs.hpp:84-128 | a download gives an upload back if and only if it has no control-Z and nothing of the old file can be read behind it |
| Paths.GetRelativePath | netfiles/src/ftp/ftp_command_processor.cpp:555-574 | the two iterators compute `RelativePath` |
| Paths.DifferentPaths | netfiles/src/ftp/ftp_command_processor.cpp:549-577 | for different canonical paths under one root, following the result from the base gives the absolute path |
| Paths.RelativePathLeadsBack | netfiles/src/ftp/ftp_command_processor.cpp:549-577 | following the result from the base gives the absolute path if and only if the two differ or are the root |
| Paths.RelativePathClimbs | netfiles/src/ftp/ftp_command_processor.cpp:565-567 | the result contains `..` if and only if the base is not a component prefix |
| Paths.RelativePathBelow | netfiles/src/ftp/ftp_command_processor.cpp:549-577 | below the base the result is what follows it, or `/` for the base itself |
| FtpFraming.CommandReader.ReadCommand | netfiles/src/ftp/ftp_session.cpp:71-107 | one read per round; hands out at most one line per read, without its line end; nothing received is lost |
| FtpFraming.BytesAreConserved | netfiles/src/ftp/ftp_session.cpp:71-107 | lines handed out plus buffer are the bytes received |
| FtpFraming.LinesArePrefix | netfiles/src/ftp/ftp_session.cpp:71-107 | however the stream was cut, the lines handed out are its first complete lines |
| FtpFraming.FragmentationOnlyDelays | netfiles/src/ftp/ftp_session.cpp:71-107 | two ways to cut a stream differ only in how many lines have been handed out |
| FtpFraming.BacklogIsLargestSurplus | netfiles/src/ftp/ftp_session.cpp:71-107 | the complete lines still in the buffer are the largest surplus of lines over reads of any tail of the reads |
| FtpFraming.AllLinesHandedOut | netfiles/src/ftp/ftp_session.cpp:71-107 | every complete line has been handed out if and only if no tail of the reads carried more lines than reads |
| FtpFraming.SecondLineWaits | netfiles/src/ftp/ftp_session.cpp:83-98 | two lines in one segment: the second stays in the buffer |
| FtpCommands.TrimLoop | netfiles/src/ftp/ftp_command_processor.cpp:73-79 | trailing blanks and line ends are removed |
| FtpCommands.ToUpper | netfiles/src/core/utils.hpp:61-68 | upper case, byte by byte |
| FtpCommands.ReadLine | netfiles/src/ftp/ftp_command_processor.cpp:81-96 | a line is empty, unknown, or one of the registered commands with the rest of the line as argument |
| FtpCommands.VerbsAreSpelled | netfiles/src/ftp/ftp_command_processor.cpp:17-65 | which name is which command, for those of the session and the transfers |
| FtpCommands.FileVerbsAreSpelled | netfiles/src/ftp/ftp_command_processor.cpp:17-65 | the same for all others |
| FtpCommands.CommandReads | netfiles/src/ftp/ftp_command_processor.cpp:67-96 | a word in any case, a blank and an argument are read as the command of that name with that argument, whatever blanks and line ends follow |
| FtpCommands.BlankLineIsEmpty | netfiles/src/ftp/ftp_command_processor.cpp:73-79 | blanks and line ends alone are no command |
| FtpCommands.PortReadsBack | netfiles/src/ftp/ftp_command_processor.cpp:156-191 | for every host and port, the six numbers of a PASV reply are read back by PORT |
| FtpCommands.PortIsRead | netfiles/src/ftp/ftp_command_processor.cpp:156-176 | six numbers: the host is the first four with dots between, and the last two have to fit into 31 bits |
| FtpCommands.PortIsBigEndian | netfiles/src/ftp/ftp_command_processor.cpp:167-168 | the port is 256 times the fifth number plus the sixth, for bytes |
| FtpCommands.PortIsCut | netfiles/src/ftp/ftp_command_processor.cpp:167-168 | of larger numbers only the lower 16 bits count |
| FtpCommands.PortIsRefused | netfiles/src/ftp/ftp_command_processor.cpp:158-164 | anything but six numbers between commas is refused |
| FtpSession.FTPSession.HandleUser | netfiles/src/ftp/ftp_command_processor.cpp:126-130 | sets the user name |
| FtpSession.FTPSession.HandlePass | netfiles/src/ftp/ftp_command_processor.cpp:133-146 | any password logs in a non-empty user name, with WRITE permission |
| FtpSession.FTPSession.HandleQuit | netfiles/src/ftp/ftp_command_processor.cpp:149-153 | ends the session; the reply code is 421 |
| FtpSession.FTPSession.HandlePort | netfiles/src/ftp/ftp_command_processor.cpp:156-176 | six numbers set the target and the type ACTIVE; too large ones throw before anything is set |
| FtpSession.FTPSession.HandlePasv | netfiles/src/ftp/ftp_command_processor.cpp:179-191 | changes nothing in the session |
| FtpSession.FTPSession.HandleType | netfiles/src/ftp/ftp_command_processor.cpp:423-437 | sets one of the two types |
| FtpSession.FTPSession.EstablishDataConnection | netfiles/src/ftp/ftp_session.cpp:128-145 | accepts or connects, as the connection type says |
| FtpSession.FTPSession.HandleList | netfiles/src/ftp/ftp_session.cpp:148-183 | 150, then the outcome of the listing |
| FtpSession.FTPSession.HandleRetr | netfiles/src/ftp/ftp_session.cpp:186-213 | 150, then the outcome of the download; only a whole transfer is counted |
| FtpSession.FTPSession.HandleStor | netfiles/src/ftp/ftp_session.cpp:216-244 | 150, then the outcome of the upload; only a whole transfer is counted |
| FtpSession.FTPSession.HandleDele | netfiles/src/ftp/ftp_command_processor.cpp:245-271 | removes a file or a directory whose path `resolve` accepts |
| FtpSession.FTPSession.HandleRnfr | netfiles/src/ftp/ftp_command_processor.cpp:274-294 | remembers the source |
| FtpSession.FTPSession.HandleRnto | netfiles/src/ftp/ftp_command_processor.cpp:297-328 | renames the remembered source, which stays remembered |
| FtpSession.FTPSession.HandleCwd | netfiles/src/ftp/ftp_command_processor.cpp:331-358 | moves to an existing directory whose path `resolve` accepts |
| FtpSession.FTPSession.HandleCdup | netfiles/src/ftp/ftp_command_processor.cpp:63-64 | CWD with the argument `..` |
| FtpSession.FTPSession.HandlePwd | netfiles/src/ftp/ftp_command_processor.cpp:361-374 | the quoted relative path from the root to the current directory |
| FtpSession.FTPSession.HandleMkd | netfiles/src/ftp/ftp_command_processor.cpp:377-397 | creates a directory whose path `resolve` accepts |
| FtpSession.FTPSession.HandleRmd | netfiles/src/ftp/ftp_command_processor.cpp:400-420 | removes a directory whose path `resolve` accepts |
| FtpSession.FTPSession.HandleSize | netfiles/src/ftp/ftp_command_processor.cpp:440-465 | the size of a file whose path `resolve` accepts |
| FtpSession.FTPSession.HandleConstant | netfiles/src/ftp/ftp_command_processor.cpp:468-506 | MDTM, NOOP, FEAT and OPTS change nothing |
| FtpSession.FTPSession.Dispatch | netfiles/src/ftp/ftp_command_processor.cpp:17-65 | each registered name runs its handler |
| FtpSession.FTPSession.ProcessCommand | netfiles/src/ftp/ftp_command_processor.cpp:67-111 | parses, dispatches, and turns an exception into a 550 |
| FtpSession.FTPSession.ProcessOneCommand | netfiles/src/ftp/ftp_session.cpp:109-126 | one line is read and, unless it is empty, answered; 421 closes the session |
| FtpSession.FTPSession.Start | netfiles/src/ftp/ftp_session.cpp:29-55 | after any run the fields, the replies and the file system requests are those of the history, the history is that of the first lines of the stream, nothing follows a QUIT, and the loop ends only by QUIT or at the end of the stream |
| FtpSession.RepliesOfSession | netfiles/src/ftp/ftp_session.cpp:109-126 | the greeting, then exactly one final reply per command, the k-th being the one to command k, each with at most one 150 in front |
| FtpRules.PathIsAccepted | netfiles/src/ftp/ftp_command_processor.cpp:511-546 | a path is accepted if and only if it has a canonical form taken from the current directory, the root has one, and the root's text opens it |
| FtpRules.LoginComesFirst | netfiles/src/ftp/ftp_command_processor.cpp:211-465 | without a login, thirteen commands are answered with 530 alone and do nothing |
| FtpRules.RetrCode | netfiles/src/ftp/ftp_session.cpp:186-213 | when a download is answered with 530, 501, 226 and 550 |
| FtpRules.StorCode | netfiles/src/ftp/ftp_session.cpp:216-244 | the same for an upload |
| FtpRules.ListCode | netfiles/src/ftp/ftp_session.cpp:148-183 | the same for a listing |
| FtpRules.DeleCode | netfiles/src/ftp/ftp_command_processor.cpp:245-271 | the same for DELE |
| FtpRules.RenameCodes | netfiles/src/ftp/ftp_command_processor.cpp:274-328 | the same for RNFR and RNTO: a pending source is asked for before a name |
| FtpRules.DirectoryCodes | netfiles/src/ftp/ftp_command_processor.cpp:361-420 | the same for MKD, RMD and PWD |
| FtpRules.CwdCode | netfiles/src/ftp/ftp_command_processor.cpp:331-358 | the same for CWD; CDUP is CWD to `..` |
| FtpRules.SizeReply | netfiles/src/ftp/ftp_command_processor.cpp:440-465 | SIZE answers with the size in decimal for whatever is not a directory |
| FtpRules.LoginCodes | netfiles/src/ftp/ftp_command_processor.cpp:126-153 | the codes of USER, PASS and QUIT |
| FtpRules.PortCode | netfiles/src/ftp/ftp_command_processor.cpp:156-176 | the codes of PORT |
| FtpRules.TypeReply | netfiles/src/ftp/ftp_command_processor.cpp:423-437 | the two types, each under two names |
| FtpRules.PasvReply | netfiles/src/ftp/ftp_command_processor.cpp:179-191 | PASV names the loopback address and the port, the high byte first |
| FtpRules.MkdReply | netfiles/src/ftp/ftp_command_processor.cpp:394-396 | the text of a 257 to MKD |
| FtpRules.ConstantReplies | netfiles/src/ftp/ftp_command_processor.cpp:468-506 | the replies to MDTM, NOOP, FEAT and OPTS |
| FtpRules.UnknownIsRefused | netfiles/src/ftp/ftp_command_processor.cpp:81-96 | what is not a command is answered with 500 and does nothing |
| FtpRules.RepliesAre | netfiles/src/ftp/ftp_session.cpp:148-244 | a 150 goes out first for listings and for transfers that name a file, once the client is logged in, and for nothing else |
| FtpRules.EffectsAre | netfiles/src/ftp/ftp_command_processor.cpp:245-420 | which command asks the file system for which change, and of which path |
| FtpRules.EffectsComeFrom | netfiles/src/ftp/ftp_command_processor.cpp:245-420 | over whole sessions: directories are created only by MKD, uploads stored only by STOR, files removed only by DELE of what is no directory, directories only by RMD or by DELE of one, and only RNTO renames |
| FtpFiles.AfterMkd | netfiles/src/ftp/ftp_command_processor.cpp:377-397 | after a 257 to MKD there is a directory at its path, and nothing else has changed |
| FtpFiles.AfterRmd | netfiles/src/ftp/ftp_command_processor.cpp:400-420 | after a 226 to RMD nothing is at its path nor beneath it, and nothing else has changed |
| FtpFiles.AfterDele | netfiles/src/ftp/ftp_command_processor.cpp:245-271 | after a 226 to DELE nothing is at its path, nor beneath it if it was a directory, and nothing else has changed |
| FtpFiles.AfterRnto | netfiles/src/ftp/ftp_command_processor.cpp:297-328 | after a 226 to RNTO what was at the path of the latest RNFR and beneath is at its path and beneath, nothing is left there, and nothing else has changed |
| FtpFiles.AfterOthers | netfiles/src/ftp/ftp_command_processor.cpp:17-65 | no other command changes what is where |
| FtpFiles.OnlyRenamesMakePaths | netfiles/src/ftp/ftp_command_processor.cpp:528-532 | where only existing paths have a canonical form, whatever a client does, only renames make new paths: uploads and MKD create nothing |
| FtpFiles.OutsideIsUntouched | netfiles/src/ftp/ftp_command_processor.cpp:511-546 | where nothing beside the root starts with its text, no session changes anything outside the root |
| FtpHistory.UsernameIsLatest | netfiles/src/ftp/ftp_command_processor.cpp:126-130 | the user name is the argument of the latest USER |
| FtpHistory.AuthenticatedIffLoggedIn | netfiles/src/ftp/ftp_command_processor.cpp:133-146 | authenticated if and only if some PASS came while the latest USER had a non-empty argument; WRITE permission if and only if authenticated |
| FtpHistory.RenameSourceIsLatest | netfiles/src/ftp/ftp_command_processor.cpp:274-328 | the rename source is the path of the latest RNFR answered with 350 |
| FtpHistory.ConnectionIsLatestPort | netfiles/src/ftp/ftp_command_processor.cpp:156-191 | ACTIVE if and only if some PORT was answered with 200, with the host and port of the latest one |
| FtpHistory.EndpointIsLatestPort | netfiles/src/ftp/ftp_session.cpp:128-145 | data connections go to the latest PORT even after a later PASV |
| FtpHistory.TypeIsLatest | netfiles/src/ftp/ftp_command_processor.cpp:423-437 | the type is that of the latest TYPE answered with 200 |
| FtpHistory.DirectoryIsLatest | netfiles/src/ftp/ftp_command_processor.cpp:331-358 | the directory is that of the latest CWD or CDUP answered with 250 |
| FtpHistory.ActiveUntilQuit | netfiles/src/ftp/ftp_command_processor.cpp:149-153 | the session is active if and only if no QUIT has run |
| FtpHistory.BytesAreSummed | netfiles/src/ftp/ftp_session.cpp:186-244 | the byte count is the sum over all transfers, modulo 2^64 |
| FtpHistory.TransferIsAnswered | netfiles/src/ftp/ftp_session.cpp:186-244 | bytes are counted if and only if a RETR or STOR is answered with 226 and their number |
| FtpHistory.PathsExtendRoot | netfiles/src/ftp/ftp_command_processor.cpp:511-546 | the root string is a prefix of the current directory and of the rename source |
| Confinement.BeneathIsPrefix | netfiles/src/ftp/ftp_command_processor.cpp:540-542 | the components of one path start with those of another if and only if the texts are equal, or the longer text goes on with a separator, or the shorter one ends in one |
| Confinement.AcceptedIsBeneath | netfiles/src/ftp/ftp_command_processor.cpp:511-546 | an accepted path lies beneath the root if and only if its text is the root's, or goes on with a separator, or the root's text ends in one |
| Confinement.SiblingIsEntered | netfiles/src/ftp/ftp_command_processor.cpp:331-358 | rooted at `C:\srv`, a client that logged in enters `C:\srv2` |
| Confinement.StaysBeneath | netfiles/src/ftp/ftp_command_processor.cpp:511-546 | if everything present whose text starts with the root's lies beneath the root, the current directory, the rename source and every change asked of the file system lie beneath it after any run |
| Confinement.ConfinedIff | netfiles/src/ftp/ftp_command_processor.cpp:511-546 | every session stays beneath the root if and only if nothing present beside the root starts with its text |
| Confinement.ConfinedByDrive | netfiles/src/ftp/ftp_command_processor.cpp:511-546 | whatever the file system holds, every session stays beneath the root if and only if the root is a drive |
| Confinement.PwdLeadsToDirectory | netfiles/src/ftp/ftp_command_processor.cpp:361-374 | the path PWD shows leads from the root to the directory if that lies beneath the root, and contains `..` if and only if it does not |
| Confinement.PwdReply | netfiles/src/ftp/ftp_command_processor.cpp:361-374 | in a directory beneath the root PWD is answered with 257 and the quoted names below the root, or `/` |
| Confinement.PathsAreSpelled | netfiles/src/ftp/ftp_command_processor.cpp:540-542 | how paths are spelled: a drive with a separator behind it, names with one between |
| FtpHistory.EffectsAreAuthorised | netfiles/src/ftp/ftp_command_processor.cpp:245-420 | every change asked of the file system comes after a login and only names paths the root string is a prefix of |
| FtpHistory.RenameGoesFromLatest | netfiles/src/ftp/ftp_command_processor.cpp:297-328 | a rename goes from the path of the latest RNFR answered with 350 to the path of the RNTO |
| FtpHistory.NothingNewIsCreated | netfiles/src/ftp/ftp_command_processor.cpp:528-532 | where only existing paths have a canonical form, no command ever asks for a change to a path at which nothing is |
| FtpHistory.NewNamesAreRefused | netfiles/src/ftp/ftp_command_processor.cpp:528-532 | a client that is logged in gets 550 for a STOR or MKD of a non-empty name without a canonical form, and nothing is asked of the file system |
| FtpHistory.ChangesAreAnswered | netfiles/src/ftp/ftp_command_processor.cpp:245-420 | DELE, RNTO, MKD and RMD report success if and only if the change was asked of the file system and succeeded |
| FtpHistory.FinalCodes | netfiles/src/ftp/ftp_command_processor.cpp:67-111 | no handler answers with 150, and only QUIT answers with 421 |
| FtpHistory.OneFinalReplyEach | netfiles/src/ftp/ftp_session.cpp:109-126 | without the 150s the replies are one final reply per command, in order |
| FtpHistory.RepliesArePaired | netfiles/src/ftp/ftp_session.cpp:109-126 | a 150 is always followed by a final reply |

## Left out

- Sockets, acceptors, coroutines, executors, signal handling and thread pools: scheduling. A failed write on the control connection is not modelled.
- Conversions between code pages in front of and behind the FTP commands, `encodeFilename` and base64: the models start from the converted bytes; in PROPFIND the conversion is an arbitrary function.
- The real file system: `canonical`, `exists`, `is_directory`, sizes and the success of each operation are arbitrary answers. The FTP root is assumed to stay canonical while a session runs.
- FtpFiles.FilesAt: a change that fails is taken to have changed nothing; directories that MKD would create above a missing one do not occur, and the contents of files are in `FileTransfer`.
- Fixed texts of FTP replies, the formatting of listings and dates, and the log output.
- FtpSession.FTPSession.HandleRnto: `get_rename_from` returns a reference to a temporary; the model takes the value it refers to.
- FtpSession.FTPSession.HandleRetr: the number of bytes of a transfer is the environment's answer; the copy loops are in `FileTransfer`.
- FtpSession.FTPSession.HandleStor: likewise, the number of bytes is the environment's answer.
- Utf.Utf8ToUtf32: the source returns a view of a thread-local buffer that the next call overwrites; the model returns a value.
- Splitting.SplitByLoop: the method needs a pattern that is not empty, since the source's loop does not end on the empty one; `SplitByEndsIff` states that for the loop's turns.
- Propfind.ProcessPropfind: exceptions from reading a directory are not modelled, nor are the reply's own headers.
- FileTransfer.AsyncFileBuffered.Read: a C library that removes a trailing control-Z when it opens a file for update is not modelled, nor is switching between reading and writing on one stream.
- Paths.GetRelativePath: works on components; the separator of the root directory is not a component of its own, and two paths on different drives do not occur under one root.
- `ModernString::replace`, number parsing with exponents and the `escape_x` and `escape_u` helpers: they do not implement an evident specification.
- WebDAV locks, COPY, MOVE, PROPPATCH and the other handlers: each request builds a fresh resource, so nothing lasts across requests.
- `check_permission`, password validation and home directories: decisions that can be read off their branches.
