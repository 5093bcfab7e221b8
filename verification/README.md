# A verified model of the ESP32 networking and Bluetooth libraries

The libraries move bytes between places that take them in different portions: TCP segments,
send windows, chunks, frames, advertising records, 330-byte Bluetooth writes.  This project
models the parts of them that have to get such a journey right and proves that they do, or
says exactly when they do not.

Every object of the original is a class whose methods change its fields in the order of the
original code, loops and in-place writes included.  Each method is proved to do what a pure
function of its state says, and the theorems are about these functions, over all inputs and
all runs.

| file | what it models |
|---|---|
| Sequences | joining and comparing, for all the others |
| ArduinoString | the few string operations that the request parser and the HTTP client use |
| WebRequest, RequestParser | the streaming request parser, as functions and as the object |
| Segmentation, SegmentationLimits | the outcome does not depend on the cut into segments, and where it does |
| KnownHeaders, RequestHead | what the headers of a request say, the head read back as it was printed, and whole messages from their text on |
| ParsedNumbers | the numbers that the parsers read |
| MultipartBody, FormData, PlainBodies, WholeRequests | multipart bodies, encoded forms and bodies for the handler are read back as they were printed, from the first byte of the head on |
| WebSocketFrame, WebSocketSend, WebSocketReceive, WebSocketRoundTrip | frames, sending by window and acknowledgement, receiving, and both together |
| SharedBuffers | reference counts of the buffers shared by the queues of WebSocket clients |
| TemplateSearch, Template | the search for placeholders and when it ends, and in-place template substitution with its overflow cache |
| ResponseSender, HttpClient, ChunkedTransfer | chunked, close-delimited and fixed-length responses, the chunk reader, and both together |
| BasicResponse | short responses through any windows |
| Wildcard | the greedy wildcard matcher of the SPIFFS editor |
| EventQueue, ClosedSlots | purging the queue of lwIP events, and the slots of closed connections |
| SppTransmit | packing packets into Bluetooth serial writes |
| Advertisement, Base64, LongRead | Bluetooth advertising payloads, base64, and long reads of a characteristic |

The network, the radio and the operating system are parameters of every step: the window
and whether the connection can send, what a source has ready, how an attempt to write ends,
which bytes a segment brings.  The theorems hold for all of them.

## Where the code does less than it seems

Some expected properties are false of the code.  For each a theorem says for exactly which
inputs it holds, or a lemma gives an input on which it fails.

- The wildcard matcher compares a `*` in a name as a letter before it looks for a star in the
  pattern: it is right for a name if and only if the name has no `*`.
- A request of type text/plain is read as a form or not depending on its first segment, and a body
  that goes beyond the length on which the parser settles ends or not depending on the cut: behind
  a complete head without NUL, all cuts of a request agree exactly when neither is the case, and all
  cuts of a printed multipart body exactly when nothing is behind it and the announced length
  reaches the dashes that close it.
  A NUL in the head hides text from the line, depending on the segment: all cuts of a line with
  its end give the same text exactly when it has no NUL.
- A `+` that a client leaves as it is, also in a path, becomes a blank: the text is read back exactly
  when it has none.
- A length in the head is taken for itself exactly when it fits an int.
- A posted pair with an empty name, or a name that starts with a plain `{` or `[`, becomes one
  parameter called body.
- A template value that does not fit is cut if nothing follows its placeholder in the window and
  the window is not full; `%%` at the end of a window starts a placeholder.  Windows that end at
  neither put together the expanded template.
- The search for placeholders does not end for every value: in a text without NUL it ends for all
  values with at most so many percent signs and no NUL exactly when that is at most one.  With two, a value
  can be its own placeholder, or two values can bring each other back for ever.  A NUL behind a
  `%` stops it as well.
- A streamed response whose first window has room for the head but is not used (too small for a
  chunk, or the source not ready) later writes head and body without counting the head, and
  loses what does not fit for good; all writes fit, however it goes on, exactly when that does not happen.
  A close-delimited response ends early when a window leaves no room for its body.
- A response that announces more than its body has never ends; with open windows every other one does.
- A WebSocket frame of more than 65535 bytes announces a wrong length.
- A WebSocket ping whose payload is cut by a segment is answered with the part behind the cut only,
  and the part in front of it goes to the handler as data.
- Of a Bluetooth serial packet exactly what would come behind a full buffer is lost when the attempt to
  send that buffer fails.
- A shared buffer that was made but not passed on yet is freed by the next acknowledgement of any
  client but one for a close frame.
- A slot of a closed connection that is freed waits its turn, except the very first one, which
  gets the stamp of the unused slots and is reused at once although others are free.
- A new Bluetooth serial connection during the wait for the end of a congestion makes the transmit task
  write nothing.
- A value that is set while a client reads a longer one leaves the cursor of the read behind its
  end; a prepared write that ends meanwhile makes the read start again in the middle.
- Base64 text with padding that takes more room than its last group and the other characters
  behind its digits give, as AAAA= or AAAA=A========, decodes to more bytes than were reserved.
- Empty service data leaves a UUID without data: the data of a reader stand at the index of their
  UUIDs exactly when no empty one comes in front of one that is not.

## Model

| member | source | states |
|---|---|---|
| Segmentation.SegmentationIndependence | Essential Libraries/ESPAsyncWebServer-master/src/WebRequest.cpp:101-179 | any two ways of cutting the same request bytes into non-empty segments give the same method, url, headers, parameters, uploads per file, body data, end state and calls of the handler, if no byte is one that the code treats by its place in a segment (NUL in the head, text/plain, bytes behind the end of the body) |
| Segmentation.SegmentsAsBytes | Essential Libraries/ESPAsyncWebServer-master/src/WebRequest.cpp:101-179 | a run over segments has the effect of feeding the bytes one at a time |
| Segmentation.SegmentAsBytes | Essential Libraries/ESPAsyncWebServer-master/src/WebRequest.cpp:101-179 | one segment, with head, body or both in it, has the effect of its bytes |
| Segmentation.SameMultipartStep | Essential Libraries/ESPAsyncWebServer-master/src/WebRequest.cpp:394-552 | one byte of a multipart body has the same observable effect whether or not it ends a segment, although it flushes the upload buffer there |
| Segmentation.SameBytes | Essential Libraries/ESPAsyncWebServer-master/src/WebRequest.cpp:101-179 | requests that differ only in the sizes of the chunks handed over stay so under every further byte |
| SegmentationLimits.BodyCutsAgreeExactly | Essential Libraries/ESPAsyncWebServer-master/src/WebRequest.cpp:127-174 | for every body, multipart or not, all cuts agree if and only if the body does not go beyond the length on which the parser settles and is not text/plain that looks like a form |
| SegmentationLimits.RegularMultipart | Essential Libraries/ESPAsyncWebServer-master/src/WebRequest.cpp:527-530 | a multipart body is regular if and only if it does not go beyond the announced length, or 4 bytes behind a closing delimiter that comes before that |
| SegmentationLimits.OverrunDisagrees | Essential Libraries/ESPAsyncWebServer-master/src/WebRequest.cpp:152-155 | two cuts of a body that goes beyond the settled length, multipart or not, end in different states |
| SegmentationLimits.SniffDisagrees | Essential Libraries/ESPAsyncWebServer-master/src/WebRequest.cpp:140-150 | two cuts of a text/plain form of which only one is read as a form |
| SegmentationLimits.NulInHeadDependsOnTheCut | Essential Libraries/ESPAsyncWebServer-master/src/WebRequest.cpp:106-120 | for every part of a line of the head, without its end, all cuts give the same state if and only if it has no NUL in front of its last character |
| SegmentationLimits.NulInLineDependsOnTheCut | Essential Libraries/ESPAsyncWebServer-master/src/WebRequest.cpp:106-120 | all cuts of a line with its end give the parser the same text if and only if the line has no NUL |
| SegmentationLimits.LineCollects | Essential Libraries/ESPAsyncWebServer-master/src/WebRequest.cpp:106-120 | whatever the cut, the parser gets the text that the segments of the line add up to |
| MultipartBody.MultipartRoundTrip | Essential Libraries/ESPAsyncWebServer-master/src/WebRequest.cpp:394-552 | for every list of parts whose contents do not contain the delimiter, reading the printed body yields the fields and files in order with every byte of their contents, whichever bytes end a segment |
| MultipartBody.MultipartRequestHoweverCut | Essential Libraries/ESPAsyncWebServer-master/src/WebRequest.cpp:101-179 | the same for a request in any segments: it ends once, its parameters are the printed ones, and each non-empty file arrives in chunks whose index is the running offset with exactly one final chunk |
| MultipartBody.ContentByte | Essential Libraries/ESPAsyncWebServer-master/src/WebRequest.cpp:405-551 | while content is read, what is written and what is held back are together the content so far, and what is held back is the longest end of it that begins a delimiter |
| MultipartBody.NextMatch | Essential Libraries/ESPAsyncWebServer-master/src/WebRequest.cpp:478-525 | after a mismatch the held bytes are content and a delimiter can only start at the new byte, so falling back to a single byte loses no match |
| MultipartBody.PartContent | Essential Libraries/ESPAsyncWebServer-master/src/WebRequest.cpp:405-525 | a content without delimiter and the delimiter behind it are read as exactly that content, ended at exactly that delimiter |
| MultipartBody.AllParts | Essential Libraries/ESPAsyncWebServer-master/src/WebRequest.cpp:429-551 | by induction over the parts: each is delivered as it was printed and the next one starts clean |
| RequestHead.HeadRoundTrip | Essential Libraries/ESPAsyncWebServer-master/src/WebRequest.cpp:101-126 | the printed head of every message is complete with its last byte and is read back as method, path, query parameters, version, headers in their order, and everything that the known headers say: host, length, content type, boundary, credentials, whether the client waits for 100 Continue, and whether it asks for a WebSocket or an event stream |
| RequestHead.MultipartMessage | Essential Libraries/ESPAsyncWebServer-master/src/WebRequest.cpp:101-179 | from the text of a whole message, cut into segments anywhere, to the handler: called once, with exactly the printed fields and files behind what the router decided |
| RequestHead.FirstLineRead | Essential Libraries/ESPAsyncWebServer-master/src/WebRequest.cpp:254-292 | the first line gives method, decoded path, query pairs and version back |
| RequestHead.LineCut | Essential Libraries/ESPAsyncWebServer-master/src/WebRequest.cpp:254-276 | the first line is cut at its first two spaces and the target at its first question mark |
| RequestHead.HeaderRead | Essential Libraries/ESPAsyncWebServer-master/src/WebRequest.cpp:312-316 | a header line gives name and value back, also an empty value whose blank was trimmed |
| RequestHead.HeadersKnown | Essential Libraries/ESPAsyncWebServer-master/src/WebRequest.cpp:312-352 | for every list of headers: all are kept in order, of every kind of known header the last one decides, and nothing of the first line changes |
| RequestHead.LastHeadersDecide | Essential Libraries/ESPAsyncWebServer-master/src/WebRequest.cpp:317-327 | a multipart type, its boundary quoted or not, and a length, last in the list, decide boundary and length whatever stands in front |
| RequestHead.LengthBack | Essential Libraries/ESPAsyncWebServer-master/src/WebRequest.cpp:325-327 | a decimal length that fits an int is read back |
| KnownHeaders.OneHeaderSays | Essential Libraries/ESPAsyncWebServer-master/src/WebRequest.cpp:317-346 | what one header tells the server, whatever its name and value, the letters of the name in either case |
| KnownHeaders.SameIgnoringCase | Essential Libraries/ESPAsyncWebServer-master/src/WebRequest.cpp:317-346 | names and values are the same without regard to case if and only if each letter is the same or the same letter of the other case |
| KnownHeaders.ContainsExactly | Essential Libraries/ESPAsyncWebServer-master/src/WebRequest.cpp:294-310 | an Accept header asks for an event stream if and only if that type stands somewhere in it |
| RequestHead.FormMessage | Essential Libraries/ESPAsyncWebServer-master/src/WebRequest.cpp:101-179 | from the text of a posted form with its Content-Type header, cut into segments anywhere, to the handler: called once, with exactly the printed pairs |
| RequestHead.BodylessMessage | Essential Libraries/ESPAsyncWebServer-master/src/WebRequest.cpp:566-584 | a message without a length is handled once when its head is complete, with everything its head said, and what follows is ignored |
| RequestHead.ConnectionTypes | Essential Libraries/ESPAsyncWebServer-master/src/WebRequest.cpp:338-345 | a message is taken for a WebSocket handshake or an event stream exactly if one of its headers asks for it, whatever the others are |
| RequestHead.LiteralKinds | Essential Libraries/ESPAsyncWebServer-master/src/WebRequest.cpp:338-345 | the headers of a handshake, an event stream, credentials and an expectation are known in any case of their letters |
| RequestHead.NoPath | Essential Libraries/ESPAsyncWebServer-master/src/WebRequest.cpp:278-285 | a target that starts with its question mark is taken as a path as a whole |
| RequestHead.NoColonHeader | Essential Libraries/ESPAsyncWebServer-master/src/WebRequest.cpp:312-316 | a line without a colon is a header whose name is the line and whose value is the line without its first character |
| RequestHead.BlankFirstLine | Essential Libraries/ESPAsyncWebServer-master/src/WebRequest.cpp:554-559 | a blank first line fails the request and closes the connection, whatever follows |
| RequestHead.UnknownMethod | Essential Libraries/ESPAsyncWebServer-master/src/WebRequest.cpp:262-276 | a method that is none of the seven changes nothing |
| ParsedNumbers.LengthExactly | Essential Libraries/ESPAsyncWebServer-master/src/WebRequest.cpp:326-327 | a printed length is taken for itself if and only if it fits an int, and a negative one for 4 GiB less that much |
| ParsedNumbers.AtoiExactly | Essential Libraries/ESPAsyncWebServer-master/src/WebRequest.cpp:326-327 | blanks, a sign, digits and anything behind them are read as that number, cut to an int |
| ParsedNumbers.StrtolExactly | Essential Libraries/HTTPClient/src/HTTPClient.cpp:886-889 | blanks, a sign, 0x or not, hex digits and anything behind them are read as that number, cut to an int |
| WholeRequests.MultipartRequest | Essential Libraries/ESPAsyncWebServer-master/src/WebRequest.cpp:101-179 | a whole multipart request, head and body in any segments, also shared ones, ends once with exactly the printed fields and files in order, each file in consecutive chunks with one final chunk |
| WholeRequests.FormRequest | Essential Libraries/ESPAsyncWebServer-master/src/WebRequest.cpp:101-179 | a whole posted form request in any segments ends once with exactly its pairs |
| WholeRequests.HeadThenBody | Essential Libraries/ESPAsyncWebServer-master/src/WebRequest.cpp:105-130 | however head and body share segments, the body is treated as some cut of the body behind the complete head |
| WholeRequests.RequestCutsAgreeExactly | Essential Libraries/ESPAsyncWebServer-master/src/WebRequest.cpp:101-179 | for every complete head without NUL and everything behind it: all cuts of the request agree if and only if what is behind the head does not go beyond the length on which the parser settles and is not text/plain that looks like a form; behind a request without a body anything may follow |
| WholeRequests.EpilogueCutsAgreeExactly | Essential Libraries/ESPAsyncWebServer-master/src/WebRequest.cpp:527-530 | for every printed multipart body, everything behind it and every announced length: all cuts agree if and only if nothing is behind it and at most its last 3 bytes are missing in the announced length |
| WholeRequests.PrintedSettles | Essential Libraries/ESPAsyncWebServer-master/src/WebRequest.cpp:527-530 | the parser settles on the length of the printed body, whatever is behind it, if the announced length reaches its closing delimiter, and on the announced length otherwise |
| RequestParser.AsyncWebServerRequest.Received | Essential Libraries/ESPAsyncWebServer-master/src/WebRequest.cpp:101-179 | the loop over the lines and body of one segment leaves the object in the state that the byte-wise definition gives |
| RequestParser.AsyncWebServerRequest.ParseMultipartPostByte | Essential Libraries/ESPAsyncWebServer-master/src/WebRequest.cpp:394-552 | the state machine with its push-back is the function used in the round trip |
| RequestParser.AsyncWebServerRequest.ReadDelimiterByte | Essential Libraries/ESPAsyncWebServer-master/src/WebRequest.cpp:478-551 | each state behind a return either goes on with the delimiter or puts back exactly what was held |
| RequestParser.AsyncWebServerRequest.ReadDisposition | Essential Libraries/ESPAsyncWebServer-master/src/WebRequest.cpp:437-460 | the loop that eats one field of Content-Disposition after the other |
| RequestParser.AsyncWebServerRequest.ItemWriteBack | Essential Libraries/ESPAsyncWebServer-master/src/WebRequest.cpp:500-507 | the loop that writes a partial delimiter back keeps its order |
| RequestParser.AsyncWebServerRequest.HandleUpload | Essential Libraries/ESPAsyncWebServer-master/src/WebRequest.cpp:369-378 | the upload buffer is flushed at 1460 bytes and at the end of a segment |
| RequestParser.AsyncWebServerRequest.ParseLineOfHead | Essential Libraries/ESPAsyncWebServer-master/src/WebRequest.cpp:554-586 | the first line, a header line and the empty line that ends the head |
| RequestParser.AsyncWebServerRequest.ParseHeadLine | Essential Libraries/ESPAsyncWebServer-master/src/WebRequest.cpp:254-292 | method, path, query and version of the first line |
| RequestParser.AsyncWebServerRequest.ParseHeaderLine | Essential Libraries/ESPAsyncWebServer-master/src/WebRequest.cpp:312-352 | the method on the fields takes name and value of a header line and changes what RequestHead.HeadersKnown says that the known ones change |
| RequestParser.AsyncWebServerRequest.ParsePlainPostChar | Essential Libraries/ESPAsyncWebServer-master/src/WebRequest.cpp:354-367 | one byte of a form body |
| RequestParser.AsyncWebServerRequest.AddGetParams | Essential Libraries/ESPAsyncWebServer-master/src/WebRequest.cpp:240-252 | the loop over the pairs of a query |
| RequestParser.AsyncWebServerRequest.UrlDecoded | Essential Libraries/ESPAsyncWebServer-master/src/WebRequest.cpp:955-976 | the decoding loop gives the text of which FormData.DecodeEncoded says that it is the one that was encoded |
| RequestParser.AsyncWebServerRequest.Sniff | Essential Libraries/ESPAsyncWebServer-master/src/WebRequest.cpp:143-149 | the loop that looks whether text/plain is a form |
| RequestParser.Connection | Essential Libraries/ESPAsyncWebServer-master/src/WebRequest.cpp:101-179 | a whole connection is the run over its segments that the theorems speak of |
| FormData.QueryRoundTrip | Essential Libraries/ESPAsyncWebServer-master/src/WebRequest.cpp:240-252 | the encoded query of any list of pairs, whichever characters the client encodes and whether or not it writes blanks as +, is read back as that list |
| FormData.PostRoundTrip | Essential Libraries/ESPAsyncWebServer-master/src/WebRequest.cpp:354-367 | the same text as a body gives the same pairs if and only if every name is non-empty and does not start with a plain brace or bracket |
| FormData.PostedField | Essential Libraries/ESPAsyncWebServer-master/src/WebRequest.cpp:356-364 | one posted pair is read back if and only if its name is a form name; otherwise all of it becomes the parameter body |
| FormData.PostedFormHoweverCut | Essential Libraries/ESPAsyncWebServer-master/src/WebRequest.cpp:138-174 | a posted form in any segments ends the request once with exactly its pairs |
| FormData.DecodeEncoded | Essential Libraries/ESPAsyncWebServer-master/src/WebRequest.cpp:955-976 | decoding undoes percent-encoding for every byte string, whichever characters the client leaves as they are, with blanks as + or as %20 and hex digits of either case |
| FormData.PlusExactly | Essential Libraries/ESPAsyncWebServer-master/src/WebRequest.cpp:955-976 | a client that leaves + as it is gets its text back if and only if the text has none |
| FormData.PercentAtEnd | Essential Libraries/ESPAsyncWebServer-master/src/WebRequest.cpp:955-976 | a percent sign with less than two characters behind it stays |
| FormData.BadEscape | Essential Libraries/ESPAsyncWebServer-master/src/WebRequest.cpp:955-976 | of two characters behind a percent sign the value ends in front of the first that is no hex digit, and all three are used up |
| FormData.BareName | Essential Libraries/ESPAsyncWebServer-master/src/WebRequest.cpp:240-252 | a pair without = is a name with an empty value |
| PlainBodies.RawBody | Essential Libraries/ESPAsyncWebServer-master/src/WebRequest.cpp:156-175 | a body of a type that the server does not read goes to the handler as it comes: one call for each segment, with the index where it starts, and the request is handled once when it is complete |
| PlainBodies.RawMessage | Essential Libraries/ESPAsyncWebServer-master/src/WebRequest.cpp:101-179 | from the text of a whole message of such a type, cut into segments anywhere, to the handler: the body in order, and handled once |
| PlainBodies.SniffedForm | Essential Libraries/ESPAsyncWebServer-master/src/WebRequest.cpp:145-170 | a posted form of type text/plain is read as its pairs if its first segment looks like a form, however the rest is cut |
| PlainBodies.LooksExactly | Essential Libraries/ESPAsyncWebServer-master/src/WebRequest.cpp:148-153 | text looks like a form if and only if it has a name of the allowed characters, an equal sign and at least one more character |
| PlainBodies.UnparsedBody | Essential Libraries/ESPAsyncWebServer-master/src/WebRequest.cpp:134-175 | a handler that does not want parameters gets none, and nothing of a multipart body or a form; the request is handled once when its body is complete |
| PlainBodies.NotAPair | Essential Libraries/ESPAsyncWebServer-master/src/WebRequest.cpp:357-364 | posted text that starts with a brace, bracket or equal sign, or has no equal sign, is the parameter body |
| PlainBodies.NulEndsPair | Essential Libraries/ESPAsyncWebServer-master/src/WebRequest.cpp:354-367 | a NUL ends a posted pair as & does |
| PlainBodies.WrongOpening | Essential Libraries/ESPAsyncWebServer-master/src/WebRequest.cpp:411-428 | a multipart body that does not start with its delimiter gives no field and no file |
| WebSocketSend.MessageSentInOrder | Essential Libraries/ESPAsyncWebServer-master/src/AsyncWebSocket.cpp:312-356 | over every sequence of windows and acknowledgements: payloads so far are the message so far, only the first frame has the opcode, exactly the last is final, every byte sent is counted in _ack, and no frame starts before the one in front of it is acknowledged |
| WebSocketSend.SentMeansDelivered | Essential Libraries/ESPAsyncWebServer-master/src/AsyncWebSocket.cpp:312-318 | status SENT implies that all of the message was sent in complete frames and acknowledged |
| WebSocketSend.StepSends | Essential Libraries/ESPAsyncWebServer-master/src/AsyncWebSocket.cpp:319-356 | with a window, the frame that goes out is a frame of the protocol and is never cut |
| WebSocketSend.SendFrame | Essential Libraries/ESPAsyncWebServer-master/src/AsyncWebSocket.cpp:43-109 | what goes to the connection for every window: nothing, the whole frame, or the head and as much payload as fits; the payload is masked where it stands |
| WebSocketSend.AsyncWebSocketBasicMessage.Send | Essential Libraries/ESPAsyncWebServer-master/src/AsyncWebSocket.cpp:319-356 | the method is the step of the run; the correction of _sent and _ack is unreachable |
| WebSocketSend.AsyncWebSocketBasicMessage.Ack | Essential Libraries/ESPAsyncWebServer-master/src/AsyncWebSocket.cpp:312-318 | an acknowledgement, and when it finishes the message |
| WebSocketSend.MultiAgrees | Essential Libraries/ESPAsyncWebServer-master/src/AsyncWebSocket.cpp:408-456 | the different tests of a MultiMessage agree with these if and only if no more is acknowledged than was sent |
| WebSocketSend.SendNeedsAWindow | Essential Libraries/ESPAsyncWebServer-master/src/AsyncWebSocket.cpp:319-356 | without a window send() counts bytes that are never sent, or emits an empty continuation frame, which for a masked message counts 4 bytes more than it has |
| WebSocketSend.AnnouncedLength | Essential Libraries/ESPAsyncWebServer-master/src/AsyncWebSocket.cpp:77-85 | the length in the head is the length of the payload if and only if it is below 65536 |
| WebSocketSend.WindowIsUsed | Essential Libraries/ESPAsyncWebServer-master/src/AsyncWebSocket.cpp:336-345 | with a window and nothing outstanding the message goes on by as much as fits |
| WebSocketFrame.HeadRoundTrip | Essential Libraries/ESPAsyncWebServer-master/src/AsyncWebSocket.cpp:615-640 | the head of every frame, with 7, 16 or 64 bits of length, masked or not, is read back whatever follows |
| WebSocketFrame.MaskTwice | Essential Libraries/ESPAsyncWebServer-master/src/AsyncWebSocket.cpp:645-648 | masking twice with the same phase changes nothing |
| WebSocketFrame.XorIsExclusiveOr | Essential Libraries/ESPAsyncWebServer-master/src/AsyncWebSocket.cpp:645-648 | of all bytes the masked one is the one whose bits are set exactly where those of the byte and of the key differ |
| WebSocketFrame.MaskIsExclusiveOr | Essential Libraries/ESPAsyncWebServer-master/src/AsyncWebSocket.cpp:645-648 | a text is the masked payload if and only if each byte is the exclusive or of its byte and the byte of the key at its position modulo 4 |
| WebSocketFrame.ExamplesOfProtocol | Essential Libraries/ESPAsyncWebServer-master/src/AsyncWebSocket.cpp:43-109 | frames are printed as RFC 6455 section 5.7 shows them: a text plain, masked and in two fragments, a ping and its masked answer |
| WebSocketFrame.LongExamplesOfProtocol | Essential Libraries/ESPAsyncWebServer-master/src/AsyncWebSocket.cpp:623-635 | and the heads of its two longer examples, of 16 and 64 bits of length |
| WebSocketFrame.MaskInPlace | Essential Libraries/ESPAsyncWebServer-master/src/AsyncWebSocket.cpp:93-97 | the loop over the block masks exactly the part it is given, by the function that MaskIsExclusiveOr describes |
| WebSocketReceive.AsyncWebSocketClient.Received | Essential Libraries/ESPAsyncWebServer-master/src/AsyncWebSocket.cpp:610-699 | the loop over a segment, unmasking in place, gives the deliveries of the definition |
| WebSocketReceive.AsyncWebSocketClient.ReadHead | Essential Libraries/ESPAsyncWebServer-master/src/AsyncWebSocket.cpp:614-640 | head fields from the bytes where they stand |
| WebSocketReceive.AsyncWebSocketClient.ReadPayload | Essential Libraries/ESPAsyncWebServer-master/src/AsyncWebSocket.cpp:642-697 | how many bytes belong to the frame, and what is delivered for them |
| WebSocketRoundTrip.FramesRoundTrip | Essential Libraries/ESPAsyncWebServer-master/src/AsyncWebSocket.cpp:610-699 | every sequence of data frames, cut anywhere but within a head, is delivered piece by piece as the original payloads, so the mask phase and the offsets continue correctly |
| WebSocketRoundTrip.SegmentTaken | Essential Libraries/ESPAsyncWebServer-master/src/AsyncWebSocket.cpp:610-699 | one segment moves the receiver forward by exactly its bytes |
| WebSocketRoundTrip.ControlAnswered | Essential Libraries/ESPAsyncWebServer-master/src/AsyncWebSocket.cpp:664-690 | a control frame that comes whole, masked or not, is answered with its payload, and a pong is passed on unless it answers the own ping; what follows is read as if it had not been there |
| WebSocketRoundTrip.CutControlAnswered | Essential Libraries/ESPAsyncWebServer-master/src/AsyncWebSocket.cpp:650-690 | a control frame whose payload is cut by a segment is answered with what comes behind the cut, and what is in front of it goes to the handler as if it were data |
| WebSocketRoundTrip.MessageRoundTrip | Essential Libraries/ESPAsyncWebServer-master/src/AsyncWebSocket.cpp:319-356 | from the windows of a sender to the handler of a receiver: the text arrives whole, opcode first, final last |
| WebSocketRoundTrip.SentAreDataFrames | Essential Libraries/ESPAsyncWebServer-master/src/AsyncWebSocket.cpp:333-345 | what a message sends meets the conditions of the receiver theorem |
| SharedBuffers.BuffersOutliveTheirMessages | Essential Libraries/ESPAsyncWebServer-master/src/AsyncWebSocket.cpp:1219-1229 | over every run, each count is the number of queued messages that use the buffer, no buffer stays locked, and no queued message uses a freed buffer |
| SharedBuffers.StepSafe | Essential Libraries/ESPAsyncWebServer-master/src/AsyncWebSocket.cpp:543-558 | every call keeps the counts equal to the number of uses |
| SharedBuffers.SendToAllSafe | Essential Libraries/ESPAsyncWebServer-master/src/AsyncWebSocket.cpp:948-987 | a broadcast, with queues that are full and queues that run meanwhile, keeps the counts, and frees its buffer if and only if no queued message uses it in the end |
| SharedBuffers.BroadcastReaches | Essential Libraries/ESPAsyncWebServer-master/src/AsyncWebSocket.cpp:948-959 | for every server and every client: a broadcast is put behind the queue of every connected client with room, of no full one and of none that is closing, and a queue that can run loses what is finished at its front |
| SharedBuffers.MessageReaches | Essential Libraries/ESPAsyncWebServer-master/src/AsyncWebSocket.cpp:543-558 | the same for one message to one client; the queues of the others stay |
| SharedBuffers.AckReaches | Essential Libraries/ESPAsyncWebServer-master/src/AsyncWebSocket.cpp:496-516 | an acknowledgement that completes a message takes it and the finished ones behind it out of its queue, and nothing else |
| SharedBuffers.TakenBufferStays | Essential Libraries/ESPAsyncWebServer-master/src/AsyncWebSocket.cpp:948-987 | a broadcast that some client takes keeps its buffer |
| SharedBuffers.AckFreesExactly | Essential Libraries/ESPAsyncWebServer-master/src/AsyncWebSocket.cpp:496-516 | an acknowledgement of any client frees a buffer if and only if no queue used it, except the one for a close frame, which frees none |
| SharedBuffers.MadeBufferDoesNotSurviveAck | Essential Libraries/ESPAsyncWebServer-master/src/AsyncWebSocket.cpp:1198-1217 | a buffer that was made but not passed on is freed by the next acknowledgement of any client, if and only if that is not the one for the close frame of a closing client |
| SharedBuffers.CleanFreesExactly | Essential Libraries/ESPAsyncWebServer-master/src/AsyncWebSocket.cpp:1219-1229 | cleaning frees exactly the buffers that no queued message uses and no broadcast has locked |
| SharedBuffers.AsyncWebSocket.TextAll | Essential Libraries/ESPAsyncWebServer-master/src/AsyncWebSocket.cpp:948-959 | lock, queue for every connected client, unlock, clean: the method is the broadcast of which BroadcastReaches says whom it reaches |
| SharedBuffers.AsyncWebSocket.CleanSharedBuffers | Essential Libraries/ESPAsyncWebServer-master/src/AsyncWebSocket.cpp:1219-1229 | the loop over the buffers |
| SharedBuffers.AsyncWebSocket.RunClientQueue | Essential Libraries/ESPAsyncWebServer-master/src/AsyncWebSocket.cpp:526-529 | the loop that deletes finished messages |
| SharedBuffers.AsyncWebSocket.QueueClientMessage | Essential Libraries/ESPAsyncWebServer-master/src/AsyncWebSocket.cpp:543-558 | a message is queued, or deleted again |
| SharedBuffers.AsyncWebSocket.Ack | Essential Libraries/ESPAsyncWebServer-master/src/AsyncWebSocket.cpp:496-516 | finish, clean, run the queue; a closing client whose close frame is acknowledged does none of it |
| SharedBuffers.AsyncWebSocket.HandleDisconnect | Essential Libraries/ESPAsyncWebServer-master/src/AsyncWebSocket.cpp:872-877 | the queue of a client that goes is released |
| SharedBuffers.AsyncWebSocket.MakeSharedBuffer | Essential Libraries/ESPAsyncWebServer-master/src/AsyncWebSocket.cpp:1198-1217 | a new buffer, unused and unlocked |
| ChunkedTransfer.ResponseConserves | Essential Libraries/ESPAsyncWebServer-master/src/WebResponses.cpp:264-365 | over every sequence of windows and answers of the source by which the head goes out with the first window that has room for it: every write fits its window, head and framed body are written once and in order, and a finished chunked response has written all of its body |
| ChunkedTransfer.FitsExactly | Essential Libraries/ESPAsyncWebServer-master/src/WebResponses.cpp:270-342 | for every response and sequence of windows: whatever event follows any part of it, all writes fit their windows, if and only if the head goes out with the first window that has room for it |
| ChunkedTransfer.StrandedOverruns | Essential Libraries/ESPAsyncWebServer-master/src/WebResponses.cpp:273-292 | a head that stays unsent is followed by some window that the next write exceeds |
| ChunkedTransfer.OverrunExactly | Essential Libraries/ESPAsyncWebServer-master/src/WebResponses.cpp:270-341 | a write exceeds the window if and only if an earlier call left the head unsent and head and body together do not fit now |
| ChunkedTransfer.HeadLeftExactly | Essential Libraries/ESPAsyncWebServer-master/src/WebResponses.cpp:273-292 | a head is left unsent if and only if the window had room for it and was not used |
| ChunkedTransfer.OverrunLosesForGood | Essential Libraries/ESPAsyncWebServer-master/src/WebResponses.cpp:340-342 | a write that exceeds its window is lost for good: whatever follows, the response goes on and ends without having written the message, unless its source fails it |
| ChunkedTransfer.EndsEarlyExactly | Essential Libraries/ESPAsyncWebServer-master/src/WebResponses.cpp:344-354 | a response ended by closing stops before its body if and only if the window leaves no room for a byte of it |
| ChunkedTransfer.ChunkedRoundTrip | Essential Libraries/ESPAsyncWebServer-master/src/WebResponses.cpp:264-365 | a chunked response whose head goes out with the first window that has room for it, written to its end through any windows, is read by the client as the body that the source gave |
| ChunkedTransfer.ChunkedBodyReadBack | Essential Libraries/HTTPClient/src/HTTPClient.cpp:874-923 | chunks are read back as the body, and accepted if and only if no length was announced or the right one |
| ChunkedTransfer.LostConnectionFails | Essential Libraries/HTTPClient/src/HTTPClient.cpp:874-923 | a chunked body whose connection is lost in front of the last chunk is never taken for complete, wherever it is cut, and the stream has a beginning of it |
| ChunkedTransfer.WrongChunkEnd | Essential Libraries/HTTPClient/src/HTTPClient.cpp:915-920 | a chunk that is not followed by the end of its line is an error |
| ChunkedTransfer.FixedLengthRoundTrip | Essential Libraries/ESPAsyncWebServer-master/src/WebResponses.cpp:264-365 | a finished response of announced length, written through any windows, is read as exactly so many bytes of the body, whatever follows on the connection |
| ChunkedTransfer.CloseDelimitedRoundTrip | Essential Libraries/ESPAsyncWebServer-master/src/WebResponses.cpp:264-365 | a finished response that is ended by closing is read as what was written of the body, which is all of it if every window is larger than the head |
| ChunkedTransfer.EndsExactly | Essential Libraries/ESPAsyncWebServer-master/src/WebResponses.cpp:352-363 | with as many open windows as bytes and one more, and then the acknowledgement of everything written, a response ends if and only if it announces no more than its body has |
| ChunkedTransfer.ShortBodyNeverEnds | Essential Libraries/ESPAsyncWebServer-master/src/WebResponses.cpp:352-354 | a response that announces more than its body has never ends, whatever windows and acknowledgements come |
| HttpClient.PlainBody | Essential Libraries/HTTPClient/src/HTTPClient.cpp:864-872 | of a body that is not chunked the stream gets the announced bytes and no more, all there is and an error if they are fewer, and everything if nothing was announced |
| ChunkedTransfer.SizeReadBack | Essential Libraries/HTTPClient/src/HTTPClient.cpp:886-889 | the size line is read back whatever blanks are behind it |
| ResponseSender.AsyncAbstractResponse.Ack | Essential Libraries/ESPAsyncWebServer-master/src/WebResponses.cpp:256-365 | the method is the step of the run, also for a source that is gone |
| ResponseSender.AsyncAbstractResponse.FilledBuffer | Essential Libraries/ESPAsyncWebServer-master/src/WebResponses.cpp:301-337 | the block of head, chunk size, data and line end, written within its bounds |
| HttpClient.HTTPClient.CopyChunks | Essential Libraries/HTTPClient/src/HTTPClient.cpp:874-923 | the loop over the chunks, with every error it returns; if the stream fails, it has a beginning of what the chunks would have brought it |
| HttpClient.HTTPClient.CopyDataBlock | Essential Libraries/HTTPClient/src/HTTPClient.cpp:1299-1393 | a block is copied whatever part of it is available at a time and however the stream takes it, with one retry; if the stream fails, it has a beginning of the block |
| BasicResponse.ResponseConserves | Essential Libraries/ESPAsyncWebServer-master/src/WebResponses.cpp:181-240 | in every run the written bytes are a beginning of head and content; waiting for the last acknowledgement means all was written once, and ending means all was acknowledged |
| BasicResponse.StartConserves | Essential Libraries/ESPAsyncWebServer-master/src/WebResponses.cpp:181-213 | all five cases of the first window keep written and unwritten bytes together the message |
| BasicResponse.FirstWindow | Essential Libraries/ESPAsyncWebServer-master/src/WebResponses.cpp:181-213 | the first window takes what it has room for, except one of exactly the head in front of a text, which is not used |
| BasicResponse.AckConserves | Essential Libraries/ESPAsyncWebServer-master/src/WebResponses.cpp:215-240 | every further window keeps them so and is not exceeded |
| BasicResponse.LastWindow | Essential Libraries/ESPAsyncWebServer-master/src/WebResponses.cpp:219-227 | content ends if and only if a window is larger than the rest; one that just fits needs another call |
| BasicResponse.WindowsFinish | Essential Libraries/ESPAsyncWebServer-master/src/WebResponses.cpp:215-240 | more open windows than bytes left finish the response |
| BasicResponse.AsyncBasicResponse.StartResponse | Essential Libraries/ESPAsyncWebServer-master/src/WebResponses.cpp:181-213 | the five cases on the fields |
| BasicResponse.AsyncBasicResponse.Ack | Essential Libraries/ESPAsyncWebServer-master/src/WebResponses.cpp:215-240 | an acknowledgement on the fields |
| HttpClient.HTTPClient.CopyToStream | Essential Libraries/HTTPClient/src/HTTPClient.cpp:852-930 | the encoding decides how the body is read, with the errors for a lost connection, an unknown encoding and a stream that fails; a body that is not chunked gives the stream exactly the announced bytes, or all there is and an error, or everything if nothing was announced |
| Template.ServeAll | Essential Libraries/ESPAsyncWebServer-master/src/WebResponses.cpp:381-473 | a caller that asks for windows of any sizes until one stays empty gets exactly the template with every placeholder replaced and every escaped percent sign single, if no window ends at a hazard of the template; a value may have a percent sign itself where no other follows |
| TemplateSearch.ReplacementConserves | Essential Libraries/ESPAsyncWebServer-master/src/WebResponses.cpp:438-470 | a replacement puts exactly the value in place of the placeholder, if and only if not (the value does not fit, nothing follows the placeholder in the window, and the window is not full) |
| Template.PassOnTemplate | Essential Libraries/ESPAsyncWebServer-master/src/WebResponses.cpp:389-470 | on a template whose window does not end at a hazard, one pass keeps what the stream stands for, with placeholders, escapes and a last lone percent sign, loses nothing and gets on |
| TemplateSearch.PassMakesProgress | Essential Libraries/ESPAsyncWebServer-master/src/WebResponses.cpp:389-470 | with at most one percent sign in every value, and without NUL, every pass removes percent signs or moves on |
| TemplateSearch.SearchEndsExactly | Essential Libraries/ESPAsyncWebServer-master/src/WebResponses.cpp:389-470 | in every text without NUL, whatever the windows and the source, the search ends for all values with at most so many percent signs and no NUL, within a number of turns known before it begins, if and only if that is at most one percent sign |
| TemplateSearch.SearchEnds | Essential Libraries/ESPAsyncWebServer-master/src/WebResponses.cpp:389-470 | every run of the search is at most as long as the percent signs and the window allow |
| TemplateSearch.TwoValuesCycle | Essential Libraries/ESPAsyncWebServer-master/src/WebResponses.cpp:389-470 | two values that are the placeholder of each other bring each other back for ever, though no pass leaves the text as it is |
| TemplateSearch.StallsExactly | Essential Libraries/ESPAsyncWebServer-master/src/WebResponses.cpp:389-470 | for every placeholder in sight, wherever it stands and whatever the value: one pass changes nothing if and only if the name begins with a NUL and closes inside the window, or what is kept of the value is the placeholder itself |
| TemplateSearch.PassCanStall | Essential Libraries/ESPAsyncWebServer-master/src/WebResponses.cpp:389-470 | two inputs that every pass leaves as they are: a NUL behind a percent sign, and a value that is its own placeholder |
| TemplateSearch.EscapeDependsOnTheWindow | Essential Libraries/ESPAsyncWebServer-master/src/WebResponses.cpp:400-410 | of two percent signs anywhere the second is removed, and the search goes on behind the first if and only if both are in the window |
| Template.NoHazardWhenSpaced | Essential Libraries/ESPAsyncWebServer-master/src/WebResponses.cpp:381-473 | a template with no other percent sign near an escaped one, and with text behind every placeholder, has no hazard, so windows of any sizes will do |
| Template.AbstractResponse.FillBufferAndProcessTemplates | Essential Libraries/ESPAsyncWebServer-master/src/WebResponses.cpp:381-473 | in-place substitution with memmove and the cache puts the next part of the expanded text into the buffer, for every template and every buffer that does not end at a hazard; it also ends in every other text without NUL if no value has two percent signs |
| Template.AbstractResponse.ReadDataFromCacheOrContent | Essential Libraries/ESPAsyncWebServer-master/src/WebResponses.cpp:367-379 | bytes come from the cache before the source |
| Template.AbstractResponse.Substitute | Essential Libraries/ESPAsyncWebServer-master/src/WebResponses.cpp:438-470 | window, cache and source after a replacement are prefix, value and suffix |
| Wildcard.FaithfulExactlyOnStarFreeNames | Essential Libraries/ESPAsyncWebServer-master/src/SPIFFSEditor.cpp:279-299 | for a name, every pattern is decided as the glob relation says if and only if the name contains no star |
| Wildcard.CompleteWithoutStar | Essential Libraries/ESPAsyncWebServer-master/src/SPIFFSEditor.cpp:279-299 | going back only to the last star misses no match |
| Wildcard.SoundOnEveryTestee | Essential Libraries/ESPAsyncWebServer-master/src/SPIFFSEditor.cpp:279-299 | what is accepted matches, for every name |
| Wildcard.StarInNameIsMissed | Essential Libraries/ESPAsyncWebServer-master/src/SPIFFSEditor.cpp:279-299 | a pattern that is refused although it matches, for every name with a star |
| Wildcard.Match | Essential Libraries/ESPAsyncWebServer-master/src/SPIFFSEditor.cpp:279-299 | the pointer loop terminates with the result of the definition |
| EventQueue.ClearedIsNeverHanded | Essential Libraries/AsyncTCP-master/src/AsyncTCP.cpp:118-186 | once the CLEAR of a client is dispatched, no event of it that was queued behind is ever handed to a handler, whatever happens later |
| EventQueue.ClearPreemptsQueued | Essential Libraries/AsyncTCP-master/src/AsyncTCP.cpp:233-241 | a CLEAR put in front of the queue overtakes what is queued: from then on no packet of its client in the queue is ever handed over, also when others are queued or prepended before it is dispatched |
| EventQueue.OthersKeepTheirOrder | Essential Libraries/AsyncTCP-master/src/AsyncTCP.cpp:118-152 | the events of all other clients stay and are handed over in their order |
| EventQueue.AsyncTask.RemoveEventsWithArg | Essential Libraries/AsyncTCP-master/src/AsyncTCP.cpp:118-152 | turning the queue once leaves exactly the packets of other clients in their order, and false means that none is left |
| EventQueue.AsyncTask.FirstToKeep | Essential Libraries/AsyncTCP-master/src/AsyncTCP.cpp:125-139 | the first loop discards up to the first packet that is kept |
| EventQueue.AsyncTask.HandleEvent | Essential Libraries/AsyncTCP-master/src/AsyncTCP.cpp:154-186 | a dispatched event is handed over, dropped, or clears the queue |
| EventQueue.OnlyQueuedIsHanded | Essential Libraries/AsyncTCP-master/src/AsyncTCP.cpp:154-199 | a handler is given only what was queued |
| EventQueue.OnlyClientsAreHanded | Essential Libraries/AsyncTCP-master/src/AsyncTCP.cpp:155-186 | over every run, what is handed to a handler has a client and is no Clear |
| EventQueue.WithoutKeeps | Essential Libraries/AsyncTCP-master/src/AsyncTCP.cpp:132-147 | the filter keeps exactly the packets of other clients |
| ClosedSlots.SlotsAreExclusive | Essential Libraries/AsyncTCP-master/src/AsyncTCP.cpp:821-842 | over every sequence of clients: live clients own different slots, and a stamp is zero exactly while its slot is owned |
| ClosedSlots.OldestFirst | Essential Libraries/AsyncTCP-master/src/AsyncTCP.cpp:821-842 | after the first free, a freed slot is given away only when every slot that was free before has been |
| ClosedSlots.WaitsExactly | Essential Libraries/AsyncTCP-master/src/AsyncTCP.cpp:821-842 | over every run: the slot that is freed next waits until every slot that is free now has been given away, if and only if some slot was freed before or no other slot is free |
| ClosedSlots.FirstFreedIsOldest | Essential Libraries/AsyncTCP-master/src/AsyncTCP.cpp:84-93 | whichever slots are owned, the very first slot that is freed gets the stamp of the unused slots and is the next to be given away |
| ClosedSlots.AsyncClientSlots.AllocateClosedSlot | Essential Libraries/AsyncTCP-master/src/AsyncTCP.cpp:821-834 | the loop finds the last of the oldest free slots |
| ClosedSlots.AsyncClientSlots.FreeClosedSlot | Essential Libraries/AsyncTCP-master/src/AsyncTCP.cpp:836-842 | a slot is stamped when it is freed |
| ClosedSlots.Oldest | Essential Libraries/AsyncTCP-master/src/AsyncTCP.cpp:824-829 | least non-zero stamp, later slots first; none only if all slots are owned |
| SppTransmit.NothingIsLost | Essential Libraries/BluetoothSerial/src/BluetoothSerial.cpp:162-236 | with successful sends, writes and buffer are the packets one after the other, and an empty queue leaves an empty buffer |
| SppTransmit.AlwaysOrderly | Essential Libraries/BluetoothSerial/src/BluetoothSerial.cpp:162-236 | under any congestion, failures and new connections, writes and buffer are a subsequence of the packets, and every write has 1 to 330 bytes, except that it is empty exactly behind a reset during the wait |
| SppTransmit.EmptyWriteHappens | Essential Libraries/BluetoothSerial/src/BluetoothSerial.cpp:252-262 | every first packet that fits the buffer becomes an empty write, and is lost, if a new connection comes during the wait |
| SppTransmit.PacketIsOrderly | Essential Libraries/BluetoothSerial/src/BluetoothSerial.cpp:185-236 | the same for one packet, across all sends it needs |
| SppTransmit.PacketLosesNothing | Essential Libraries/BluetoothSerial/src/BluetoothSerial.cpp:185-236 | one packet with successful sends |
| SppTransmit.LosesExactly | Essential Libraries/BluetoothSerial/src/BluetoothSerial.cpp:162-236 | over every run without a new connection and whatever becomes of each attempt, the writes and the buffer are what was kept of the packets: all of each, unless an attempt to send a full buffer fails, and then what would have come behind that buffer is lost |
| SppTransmit.PacketLosesExactly | Essential Libraries/BluetoothSerial/src/BluetoothSerial.cpp:185-236 | the same for one packet, with the number of bytes that are kept |
| SppTransmit.BluetoothSerial.TransmitPacket | Essential Libraries/BluetoothSerial/src/BluetoothSerial.cpp:185-236 | the body of the transmit task on the buffer and its length |
| SppTransmit.BluetoothSerial.TransmitBlocks | Essential Libraries/BluetoothSerial/src/BluetoothSerial.cpp:210-219 | the loop over full blocks |
| SppTransmit.BluetoothSerial.Send | Essential Libraries/BluetoothSerial/src/BluetoothSerial.cpp:162-183 | an attempt to write the buffer |
| SppTransmit.BluetoothSerial.Reset | Essential Libraries/BluetoothSerial/src/BluetoothSerial.cpp:252-262 | a new connection empties the buffer |
| Base64.RoundTrip | Essential Libraries/BLE/src/GeneralUtils.cpp:57-98 | decoding gives back every non-empty byte string, and both lengths computed in advance are the real ones |
| Base64.EncodedLengthAgrees | Essential Libraries/BLE/src/GeneralUtils.cpp:27-29 | the length computed in advance is the length of the encoding |
| Base64.GroupRoundTrip | Essential Libraries/BLE/src/GeneralUtils.cpp:37-49 | three bytes survive four digits |
| Base64.RestRoundTrip | Essential Libraries/BLE/src/GeneralUtils.cpp:190-205 | one or two last bytes survive although the decoder fills up with 255 |
| Base64.GroupIsNumber | Essential Libraries/BLE/src/GeneralUtils.cpp:37-42 | three bytes and their four digits are the same number of 24 bits |
| Base64.AlphabetOfStandard | Essential Libraries/BLE/src/GeneralUtils.cpp:23-25 | the digits are those of RFC 4648, table 1 |
| Base64.VectorsOfStandard | Essential Libraries/BLE/src/GeneralUtils.cpp:57-98 | the test vectors of RFC 4648 section 10 |
| Base64.Base64Encode | Essential Libraries/BLE/src/GeneralUtils.cpp:57-98 | the loops fill the block exactly and report success |
| Base64.Base64Decode | Essential Libraries/BLE/src/GeneralUtils.cpp:160-209 | success is reported if and only if the decoded bytes have the length computed in advance |
| Base64.RoomExactly | Essential Libraries/BLE/src/GeneralUtils.cpp:134-142 | for every text, the length computed in advance has room for the result if and only if the padding at its end is no more than completes the last group and three for every other character behind the digits |
| Base64.PaddingTakesRoom | Essential Libraries/BLE/src/GeneralUtils.cpp:134-142 | whole groups with padding behind them decode to more than the length computed in advance |
| Base64.EncodeAndDecode | Essential Libraries/BLE/src/GeneralUtils.cpp:57-98 | the two methods one after the other |
| Advertisement.AdvertisementRoundTrip | Essential Libraries/BLE/src/BLEAdvertising.cpp:296-490 | any sequence of setter calls leaves a well-formed payload of at most 31 bytes, from which a reader learns the last name, appearance, manufacturer data and flags, all service UUIDs and all non-empty service data of the accepted calls |
| Advertisement.PayloadIsRecords | Essential Libraries/BLE/src/BLEAdvertising.cpp:296-301 | the payload is the records of the calls that fitted |
| Advertisement.AcceptedExactly | Essential Libraries/BLE/src/BLEAdvertising.cpp:296-301 | a call is accepted if and only if its record fits behind what has been accepted so far, 31 bytes in all |
| Advertisement.TypesOnTheAir | Essential Libraries/BLE/src/BLEAdvertising.cpp:311-490 | the type byte of every record, as a number |
| Advertisement.ExampleOnTheAir | Essential Libraries/BLE/src/BLEAdvertising.cpp:323-400 | an advertisement of flags, a service and a name, byte by byte |
| Advertisement.RecordLearned | Essential Libraries/BLE/src/BLEAdvertisedDevice.cpp:297-385 | each record tells exactly what its setter said |
| Advertisement.TxPowerRead | Essential Libraries/BLE/src/BLEAdvertisedDevice.cpp:301-305 | a record of another device tells its transmit power |
| Advertisement.ServiceListRead | Essential Libraries/BLE/src/BLEAdvertisedDevice.cpp:316-331 | all UUIDs of a list of services are learned in order, and bytes at its end that make no UUID are passed over |
| Advertisement.OthersPassedOver | Essential Libraries/BLE/src/BLEAdvertisedDevice.cpp:285-392 | records of other types and empty records tell nothing and do not end the payload |
| Advertisement.ServiceDataAligned | Essential Libraries/BLE/src/BLEAdvertisedDevice.cpp:349-385 | in what a reader learns of the accepted calls every service data stands at the index of its UUID if and only if no empty one comes in front of one that is not, and the lists have the same length if and only if none is empty |
| Advertisement.BLEAdvertisedDevice.ParseAdvertisement | Essential Libraries/BLE/src/BLEAdvertisedDevice.cpp:272-400 | the loop over the records consumes exactly the payload |
| Advertisement.BLEAdvertisedDevice.ParseRecord | Essential Libraries/BLE/src/BLEAdvertisedDevice.cpp:297-390 | what each type of record changes |
| Advertisement.BLEAdvertisementData.Set | Essential Libraries/BLE/src/BLEAdvertising.cpp:311-490 | the setters append their record or nothing |
| Advertisement.AdvertiseAndRead | Essential Libraries/BLE/src/BLEAdvertisedDevice.cpp:272-400 | builder and reader one after the other |
| LongRead.ReadReassembles | Essential Libraries/BLE/src/BLECharacteristic.cpp:359-398 | for every value, packet size and cursor left by whatever happened before, also one behind the end of the value: the responses put together are the value, all but the last are full, and the cursor is zero behind a read of more than one response |
| LongRead.LongReadsReassemble | Essential Libraries/BLE/src/BLECharacteristic.cpp:362-376 | long reads deliver the rest of the value from the cursor on |
| LongRead.ReadWhole | Essential Libraries/BLE/src/BLECharacteristic.cpp:359-398 | a client that reads until a short response gets the value, whatever the cursor was |
| LongRead.CursorStaysInside | Essential Libraries/BLE/src/BLECharacteristic.cpp:221-398 | over every run of writes, prepared writes and reads of any clients: the cursor never leaves the value if and only if no value is set that is shorter than the cursor at that moment |
| LongRead.ReadAcrossWrites | Essential Libraries/BLE/src/BLECharacteristic.cpp:359-398 | a client whose read is interrupted by writes of others can go on and ends with the value that stands then, if and only if no prepared write was ended in between and the new value begins with what the client already has |
| LongRead.CursorAcrossWrites | Essential Libraries/BLE/src/BLEValue.cpp:45-65 | writes move the cursor only by the end of a prepared write, executed or cancelled, which sets it back to the start |
| LongRead.PreparedWrite | Essential Libraries/BLE/src/BLEValue.cpp:24-65 | a prepared write, whatever other requests come in between: executing it makes its parts in order the value, cancelling it leaves the value, and both set the cursor back |
| LongRead.LastValueStands | Essential Libraries/BLE/src/BLECharacteristic.cpp:648-660 | the last value that was set and not too long stands, whatever is read or prepared |
| LongRead.ShorterValueCutsOff | Essential Libraries/BLE/src/BLECharacteristic.cpp:648-660 | a first read that fills its packet and then a shorter value leave the cursor behind the end of the value |
| LongRead.BLECharacteristic.Read | Essential Libraries/BLE/src/BLECharacteristic.cpp:359-398 | one response and the cursor behind it |

## Left out

- MultipartBody.MultipartRoundTrip: contents without the delimiter, names without line ends and semicolons, a boundary without CR and of at most 255 characters (an eight-bit loop counter of the original does not end beyond that).
- WebSocketRoundTrip.FramesRoundTrip: frames below 4 GiB (size_t) and no head split between segments, which the original does not support.
- Template.ServeAll: names of 1 to 32 characters without NUL, values without percent sign except one that no other follows, and a source that always gives what it is asked for until its end; what one pass does otherwise is said by TemplateSearch.
- Template.AbstractResponse.FillBufferAndProcessTemplates: the same, and no window that ends at a hazard.
- TemplateSearch.PassMakesProgress: texts without NUL; StallsExactly says when a NUL makes a pass change nothing.
- SppTransmit.AlwaysOrderly: the transmit task is reset only where it blocks, waiting for a packet or for the end of a congestion; a reset between its memcpy and the update of its length, which preemption allows, is not modelled.
- EventQueue.ClearedIsNeverHanded: lwIP queues nothing while the queue is being turned.
- ClosedSlots.OldestFirst: no counter wrap, and no client assignment, which copies a slot to a second owner.
- LongRead.ReadReassembles: the value does not change during the read, which is the subject of ReadAcrossWrites.
- LongRead.BLECharacteristic.Read: a long read needs a cursor inside the value; behind its end the original reads other memory.
- WebSocketReceive.AsyncWebSocketClient.Received: no segment that ends inside a head; the original reads the missing bytes behind its segment.
- SharedBuffers.AsyncWebSocket.Ack: of the control queue only the close frame matters, and whether its acknowledgement arrives is a parameter.
- Base64.Base64Decode: texts whose digits decode to more bytes than computed in advance are left out, because the original writes behind its block for them; RoomExactly says which these are.
- Advertisement.BLEAdvertisedDevice.ParseAdvertisement: only well-formed payloads of up to 255 bytes.
- Advertisement.AdvertisementRoundTrip: payloads as the setters build them; for malformed ones or more than 255 bytes the original reads outside its buffer or does not end.
- lwIP, Bluedroid, FreeRTOS, NVS, file systems, TLS: only their effects on the modelled state appear, as parameters.
- Failing allocations and failing writes of a connection: add, write and send take everything that fits the window.
- Checking credentials, interesting headers and url rewriting: a router function decides url, parameters, headers and handler at the end of the head.
- The request object keeps its head fields and the fields of the part being read as two records, and its upload buffer as a sequence; in-place writes of NUL into the received segment are modelled by their effect on the line.
- After a delimiter that turns out to be content of a file, the original goes on with a buffer it has freed; the model starts an empty one.
- Numbers: atoi and strtol clamp as on a 32-bit long; sums of lengths are unbounded, so bodies of 2 GiB and more are outside the model.
- An empty WebSocket message and base64 of an empty text are not supported by the original; message_opcode and num of AwsFrameInfo, the reason in a close frame, and the cut of an answer to 125 bytes, are not modelled.
- Control frames in the send queue: one may be sent again before it is acknowledged, so no exactly-once claim holds; the run of a message has only data frames on the wire.
- messageAll, which shares one message object between queues, and masked broadcasts, which would mask the shared bytes in place.
- The lists of buffers and clients: the original removes elements while it iterates; the model keeps maps and sequences, and buffers are numbers instead of addresses.
- AsyncWebServerResponse: head assembly and response codes.
- HttpClient.HTTPClient.CopyChunks: the connection delivers all its bytes and is then closed; redirects, reading of the head and waiting for data are not modelled.
- HttpClient.HTTPClient.CopyDataBlock: the same.
- HttpClient.HTTPClient.CopyToStream: the same.
- The type codes of advertising records and the limits of 31 and 600 bytes are taken from the comments of the code; the headers that define them are not part of the repository.
- JSON, MD5 and SHA-1, the embedded editor page, OTA, WiFi, Ethernet, HID and other plumbing.
