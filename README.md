# ESP32 TCP server core and network text helpers, modelled in Dafny

This project models two parts of an ESP32 web/FTP/telnet server template.

The first part is the connection and server machinery of `TcpServer.hpp`:

- `TcpConnection`: time-out aware receive, send and peek on a non-blocking socket, plus an idempotent close.
- `TcpServer`: the listener thread's setup and accept loops, its state progression, the firewall check and the hand-over of accepted sockets to `__newConnection__`.
- `TcpClient`: whether the constructor ends up with a connection or without one.

The second part is the string helpers of `servers/network.h`:

- `__compactNetworkConfiguration__`, which normalises a configuration text (comments, quotes, blanks, braces);
- `__insideBrackets__`, which takes the text between two delimiters;
- `inet_ntoString` and `IPAddressFromString`, the dotted-decimal rendering and parse;
- `MacAddressAsString`, which writes hex digits with colons;
- `__appendString__`, which pads on the right.

Files and modules:

- `common.dfy` (`Common`): the 32-bit `uint32` type, `Option`, `Min` and sequence associativity, shared by the other modules.
- `tcp_timing.dfy` (`TcpTiming`): 32-bit `millis ()` arithmetic, the time-out rules, errno values, and the scripted results of socket calls.
- `tcp_connection.dfy` (`TcpConnections`): the class `TcpConnection` and the specification of `sendData` as the recursive function `SendFrom`, with its lemmas.
- `tcp_server.dfy` (`TcpServers`): the classes `TcpServer` and `TcpClient`.
- `network_config.dfy` (`NetworkConfig`): the configuration compactor and `__insideBrackets__`.
- `network_format.dfy` (`NetworkFormat`): address, MAC and padding formatting.

How the outside world appears in the model:

- **Socket calls.** `recv ()` and `send ()` become a script: a `seq<Reply>` with one entry per call. Each entry holds the call's result (a count, or -1 with an errno) and the `millis ()` value read after it.
- **A script that runs out.** A receive or send that is still retrying when its script ends reports `Pending`, meaning the real call has not returned yet.
- **The listener.** It reads a script of `Setup` items (one per pass of the outer setup loop) and `Poll` items (one per pass of the accept loop). Each poll holds the clock, the result of `accept ()`, the client address, the firewall callback's answer, the result of `fcntl ()` and whether `xTaskCreate ()` succeeded.
- **The destructor.** Its `__instanceUnloading__ = true` is modelled as a script item seen at a loop test.
- **Closed sockets.** Ghost sequences record which sockets were closed, so that "closed exactly once" and "closed iff rejected" become checkable.

Integer widths are explicit:

- `unsigned long` values are a `uint32` subset type, and `millis () - last` is computed modulo 2^32.
- `IPAddress`'s `uint8_t` parameters reduce their values modulo 256.
- `__appendString__`'s signed `toLength` is converted to unsigned before it is compared with the string length.

Behaviour of the code worth stating explicitly:

- Only a failing `socket ()` makes the listener retry its setup. A failing `bind ()`, `listen ()` or `fcntl ()` on the listener socket goes straight to `terminateListener` (TcpServer.hpp:495-518).
- The listener states are NOT_RUNNING (numerically 9), RUNNING, ACCEPTING_CONNECTIONS, STOPPED and FINISHED. The destructor waits for FINISHED.
- The destructor first deletes the stored connection, and only then sets the unloading flag (TcpServer.hpp:399-405).
- The non-threaded server's time-out is measured from construction only. `__lastActiveMillis__` of the server is never updated.
- `available ()` counts the infinite time-out 0 as already expired, and treats EBADF like EAGAIN (TcpServer.hpp:215-216).
- A hard `recv ()` or `send ()` error also sets the time-out flag and closes the connection (TcpServer.hpp:192-193, 251-252).

Source behaviour the model reproduces, perhaps unexpectedly:

- The compactor emits a leading line break when its output is still empty and the first kept character is a line break or a brace.
- A `#` starts a comment even inside a quotation.
- A space before a line break survives inside a quotation, and a later line break does not remove it (NetworkConfig.QuotedSpaceSurvives).
- `MacAddressAsString` appends a colon after each of the first five bytes, whatever the length. So a 3-byte address ends in `:`, and bytes after the sixth are not separated at all.

## Model

| member | source | states |
|---|---|---|
| TcpTiming.Elapsed | TcpServer.hpp:186 | `millis () - last` in 32-bit unsigned arithmetic: the d with (last + d) mod 2^32 == now, equal to now - last without wrap and now + 2^32 - last with wrap |
| TcpTiming.ElapsedAcrossWrap | TcpServer.hpp:186 | the elapsed time since `last` is recovered exactly after the counter wraps |
| TcpTiming.ElapsedUnique | TcpServer.hpp:186 | Elapsed is the only 32-bit value that, added to `last` modulo 2^32, gives `now` |
| TcpTiming.MayRetry | TcpServer.hpp:186 | the retry test of recvData and sendData: a would-block is retried while the time-out is 0 or the wrapped elapsed time is strictly below it; TcpTiming.WaitAcrossWrap gives its meaning in true time |
| TcpTiming.PeekExpired | TcpServer.hpp:216 | available ()'s expiry test: time-out 0 or wrapped elapsed time at least the time-out; TcpTiming.WaitAcrossWrap gives its meaning in true time |
| TcpTiming.WaitAcrossWrap | TcpServer.hpp:186 | when d < 2^32 milliseconds have really passed since the last activity, however the counter wrapped, a would-block is retried exactly while the time-out is 0 or d is below it, and a peek has expired exactly when the time-out is 0 or d has reached it |
| TcpTiming.PeekExpiredVersusRetry | TcpServer.hpp:216 | for a finite time-out, available ()'s `>=` expiry is exactly the negation of the `<` retry rule of recvData/sendData; for the infinite time-out 0, both hold at once |
| TcpConnections.ChunkPlanShape | TcpServer.hpp:237-262 | when every send () takes its chunk, the chunk lengths sum to the buffer size, each is 1..2048, all but the last are 2048, and there are ceil(size/2048) of them |
| TcpConnections.FiveThousandBytes | TcpServer.hpp:237-262 | 5000 bytes go out as 2048, 2048, 904 |
| TcpConnections.SendStep | TcpServer.hpp:239-261 | one send () result: the loop goes on exactly on a retried EAGAIN/ENAVAIL or a positive count; a positive count accepts at most the chunk and refreshes the last activity; 0 stops; a failure that is not retried stops and gives up |
| TcpConnections.SendFrom | TcpServer.hpp:235-265 | the sendData loop from a given state: it consumes replies, makes one request per consumed reply, and returns a total between the bytes already written and the buffer size |
| TcpConnections.SendChunkBounds | TcpServer.hpp:239 | every send () request starts inside the buffer, at or after the bytes already written (the first at exactly them), and offers min(rest, 2048) bytes |
| TcpConnections.SendChunksFollow | TcpServer.hpp:257-259 | each request starts where the bytes accepted of the previous one end |
| TcpConnections.SendWithoutRequests | TcpServer.hpp:237-238 | no send () is made exactly when the buffer is done, the handle is -1 or no reply is left, and then nothing else changes |
| TcpConnections.SendReturnsAccepted | TcpServer.hpp:257 | the returned total is the bytes already written plus what each send () accepted |
| TcpConnections.SendShortReturn | TcpServer.hpp:238-255 | a short return happens only on a closed handle, a send () of 0 (flag not set) or a failure that is not retried (flag set); Pending only once every reply is used |
| TcpConnections.SendGivesUp | TcpServer.hpp:244-253 | sendData sets the time-out flag exactly when its last send () failed and may not be retried against the last activity |
| TcpConnections.SendKeepsGoing | TcpServer.hpp:244-261 | every reply before the last one consumed was a would-block failure or a positive count |
| TcpConnections.SendInfiniteTimeOut | TcpServer.hpp:245 | with the infinite time-out, sendData only gives up on an errno other than EAGAIN/ENAVAIL |
| TcpConnections.SendAcceptingEverything | TcpServer.hpp:235-265 | if every send () accepts its whole chunk, sendData returns the whole buffer without the flag, asking for exactly the ChunkPlan chunks |
| TcpConnections.SendFiveThousand | TcpServer.hpp:235-265 | on a healthy link 5000 bytes take three send () calls of 2048, 2048, 904 and return 5000 |
| TcpConnections.TcpConnection.constructor | TcpServer.hpp:118-128 | the non-threaded connection: open on the given socket, the given peer and time-out, last active now, not timed out, not started |
| TcpConnections.TcpConnection.Threaded | TcpServer.hpp:85-115 | the threaded connection: `started` holds unless a handler was given and its task could not be created |
| TcpConnections.TcpConnection.CloseConnection | TcpServer.hpp:142-152 | the handle becomes -1, and close () is called once on the old handle unless it was -1 already, so a second call closes nothing |
| TcpConnections.TcpConnection.RecvData | TcpServer.hpp:175-203 | 0 at once on handle -1; would-blocks retried while the time-out allows; a count is returned as it is, a positive one refreshing the last activity; any failure not retried sets the flag, closes and returns 0 |
| TcpConnections.TcpConnection.Available | TcpServer.hpp:211-230 | a successful peek gives AVAILABLE; EAGAIN/EBADF give NOT_AVAILABLE unless the time-out is 0 or elapsed >= time-out, when they set the flag, close and give ERROR; other errnos give ERROR without closing |
| TcpConnections.TcpConnection.SendOnce | TcpServer.hpp:239-261 | one pass of the send loop changes the connection as SendStep says: bytes accepted, last activity, sticky flag, close on giving up |
| TcpConnections.TcpConnection.SendData | TcpServer.hpp:232-266 | sendData's result, requests, last activity, flag and handle are those of SendFrom from the start; the flag is sticky |
| TcpConnections.TcpConnection.SetTimeOut | TcpServer.hpp:281-285 | replaces the time-out and restarts the idle clock at now |
| TcpConnections.TcpConnection.GetThisSideIP | TcpServer.hpp:156-171 | a getsockname () failure empties the cached local address and answers ""; otherwise the first address obtained is cached and always answered |
| TcpServers.StartedAnswer | TcpServer.hpp:422-425 | started () waits only while RUNNING, answers true only for ACCEPTING_CONNECTIONS, and false at once for NOT_RUNNING (numerically 9) |
| TcpServers.TcpServer.constructor | TcpServer.hpp:337-397 | a new server: mode from the handler, time-out, firewall presence, last active now, state NOT_RUNNING, no connection |
| TcpServers.TcpServer.TimeOut | TcpServer.hpp:413-420 | false in threaded mode and for time-out 0; otherwise true exactly when the wrapped elapsed time is strictly greater than the time-out |
| TcpServers.TcpServer.TimeOutAfter | TcpServer.hpp:413-420 | the server times out exactly when more than the time-out has passed since construction, however often the counter wrapped |
| TcpServers.TcpServer.TimeOutAfterConnectionRules | TcpServer.hpp:416 | with the same time-out and start, a server that has timed out has a connection that no longer retries and whose peek has expired; when exactly the time-out has elapsed (non-threaded), the peek has expired but the server has not timed out |
| TcpServers.TcpServer.CallFirewall | TcpServer.hpp:453 | without a callback every client is admitted, with one its answer decides |
| TcpServers.TcpServer.Admit | TcpServer.hpp:532-546 | an accepted socket is rejected exactly when the firewall refuses it, and handed on exactly when it is admitted and fcntl () succeeds; it is started unless threaded with a failed task |
| TcpServers.TcpServer.ContinuingEveryPoll | TcpServer.hpp:521-549 | the accept loop keeps running through n polls exactly when none of them ends it |
| TcpServers.TcpServer.NewConnection | TcpServer.hpp:455-470 | threaded: no stored connection, and the socket closed exactly when its thread did not start; non-threaded: a fresh open connection for the socket and client is stored |
| TcpServers.TcpServer.HandlePoll | TcpServer.hpp:522-548 | one accept-loop pass: unloading, the non-threaded time-out before ACCEPTING_CONNECTIONS, and otherwise the state set, the admission, the sockets closed and the one connection of a non-threaded server |
| TcpServers.TcpServer.AcceptConnections | TcpServer.hpp:521-549 | the accept loop's exit and the states, admissions and closes of all polls up to it, and the stored connection when it stopped for one |
| TcpServers.TcpServer.PrepareListenerSocket | TcpServer.hpp:477-519 | the setup loop retries only a failed socket (); a failed bind ()/listen ()/fcntl () ends it; unloading ends it; otherwise it ends with a ready listener socket |
| TcpServers.TcpServer.TerminateListener | TcpServer.hpp:551-555 | STOPPED, close of the listener socket, FINISHED |
| TcpServers.TcpServer.ServeListenerSocket | TcpServer.hpp:521-556 | the accept loop followed, when it ends, by the termination states and the close of the listener socket |
| TcpServers.TcpServer.Listener | TcpServer.hpp:472-557 | RUNNING, the accept loop's states, then STOPPED and FINISHED on every way out; how each exit comes about; all admissions and closes, ending with the listener socket |
| TcpServers.TcpServer.Unload | TcpServer.hpp:399-405 | the destructor raises the unloading flag and deletes the stored connection, which stays Valid with handle -1 and has close () called on its old handle exactly when that was not -1 already |
| TcpServers.TcpServer.AcceptLoopStatesAccepting | TcpServer.hpp:527 | every state the accept loop sets is ACCEPTING_CONNECTIONS |
| TcpServers.TcpServer.FinishedHistoryAscends | TcpServer.hpp:472-557 | a finished listener's states never go back in numeric order and end with FINISHED, so the destructor's wait ends |
| TcpServers.TcpServer.ClosedAreRefused | TcpServer.hpp:532-546 | the sockets the accept loop closes are exactly the rejected, unconfigured and not-started ones, in order |
| TcpServers.TcpServer.NonThreadedHandsAtMostOne | TcpServer.hpp:547 | a non-threaded listener hands exactly one socket to `__newConnection__` when it stops for it, and none otherwise |
| TcpServers.TcpServer.NonThreadedHandsNone | TcpServer.hpp:547 | while a non-threaded accept loop keeps running it has handed over no socket |
| TcpServers.TcpServer.NoFirewallRejectsNobody | TcpServer.hpp:453 | without a firewall callback no accepted socket is rejected |
| TcpServers.TcpClient.constructor | TcpServer.hpp:572-612 | a connection exists exactly when socket () and fcntl () succeed and connect () succeeds or fails with EINPROGRESS, and is then open on the socket, not timed out, with no local address cached and nothing closed; otherwise an opened socket is closed |
| NetworkConfig.StripTrailing | servers/network.h:317 | the inner while loop leaves a prefix with no trailing space or line break, having removed only spaces and line breaks |
| NetworkConfig.StepRules | servers/network.h:314-321 | `#` and `"` never reach the output; a line break clears both flags; in a comment nothing but a line break changes the output or ends the comment; outside one an ordinary character is copied |
| NetworkConfig.TidyAfterBrace | servers/network.h:317-318 | stripping and then appending a brace on its own line keeps the output tidy |
| NetworkConfig.LineBreakKeepsTidy | servers/network.h:316 | the line-break branch keeps the output tidy, and a line break it adds outside a quotation ends the output with no space right before it |
| NetworkConfig.StepKeepsTidy | servers/network.h:314-321 | every pass of the character loop keeps the output tidy |
| NetworkConfig.ScannedTidy | servers/network.h:311-322 | after any number of characters the output has no `#`, `"`, tab, `=` or CR, no double space, no space after a line break, no blank line, and braces alone on their lines |
| NetworkConfig.CompactIsTidy | servers/network.h:305-325 | the result is tidy and does not end in a space |
| NetworkConfig.CommentAddsNothing | servers/network.h:314 | from a `#` to the next line break nothing reaches the output and the comment stays open |
| NetworkConfig.CompactExample | servers/network.h:305-325 | `a=1 #x` and a line break compact to `a 1` and a line break |
| NetworkConfig.QuotedSpaceSurvives | servers/network.h:316 | a space inside a quotation stays before its line break, and a second break adds nothing: `"a`, a space and two line breaks compact to `a`, a space and one line break |
| NetworkConfig.CompactNetworkConfiguration | servers/network.h:305-325 | the character loop with its flags, then one trailing space dropped, gives Compact (inp), which is tidy and ends without a space |
| NetworkConfig.StripLoop | servers/network.h:317 | the while loop before a brace computes StripTrailing |
| NetworkConfig.IndexFrom | servers/network.h:329 | the first occurrence of the pattern at or after a position, or -1 when there is none |
| NetworkConfig.IndexOf | servers/network.h:329 | String::indexOf: the first occurrence of the pattern, -1 when there is none or the text is empty |
| NetworkConfig.IndexOfFirst | servers/network.h:329 | an occurrence with none before it is the one indexOf finds |
| NetworkConfig.FirstOccurrence | servers/network.h:329 | in pre + pat + tail, with no earlier occurrence, indexOf finds the one right after pre |
| NetworkConfig.InsideBrackets | servers/network.h:327-341 | "" when the opening is missing or no closing follows it; otherwise the text between the first opening and the first later closing, which holds no closing |
| NetworkConfig.InsideBracketsOfWrapped | servers/network.h:327-341 | wrapping a text in the delimiters, with no earlier opening and no closing inside it, gives the text back |
| NetworkFormat.DecimalString | servers/network.h:346-349 | `String (byte)` is a non-empty string of decimal digits |
| NetworkFormat.DecimalStringShape | servers/network.h:346-349 | no leading zero, and one to three digits for a byte |
| NetworkFormat.DecimalRoundTrip | servers/network.h:346-349 | reading the decimal digits back gives the number |
| NetworkFormat.AddressBytesCover | servers/network.h:346-349 | the four bytes at offsets 0..3 of the address word make up the whole word |
| NetworkFormat.DottedShape | servers/network.h:346-349 | n numbers joined by dots hold n-1 dots and digits otherwise, with 1..3 digits per byte |
| NetworkFormat.InetNtoString | servers/network.h:343-350 | 7 to 15 characters, exactly three dots, digits otherwise |
| NetworkFormat.IPAddressFromString | servers/network.h:352-360 | any answer other than 0.42.42.42 comes from four scanned numbers; NetworkFormat.IPAddressRoundTrip, NetworkFormat.FewerThanFourFallBack and NetworkFormat.ThreeNumbersFallBack state the four-number and the fallback cases |
| NetworkFormat.ScanFields | servers/network.h:354 | when scanning succeeds it yields exactly the requested number of values |
| NetworkFormat.ToUint8 | servers/network.h:355 | the `uint8_t` conversion keeps values below 256 and otherwise reduces modulo 256 |
| NetworkFormat.ScanNumeral | servers/network.h:354 | a decimal numeral before a non-digit scans as its value |
| NetworkFormat.DigitRunOfDigits | servers/network.h:354 | the digit run of digits followed by a non-digit is exactly the digits |
| NetworkFormat.ScanDottedNumeral | servers/network.h:354 | a numeral and a dot in front add the numeral's value in front of what the rest scans, and failure propagates |
| NetworkFormat.ScanDottedOne | servers/network.h:354 | one numeral before a non-digit scans as one value |
| NetworkFormat.ScanDottedStep | servers/network.h:354 | if the numbers after the first scan, the whole dotted list scans |
| NetworkFormat.ScanDotted | servers/network.h:354 | the dotted form of n numbers before a non-digit scans as exactly those n numbers |
| NetworkFormat.IPAddressRoundTrip | servers/network.h:343-360 | IPAddressFromString reads inet_ntoString's output back as the same four bytes, whatever non-digit text follows |
| NetworkFormat.ScanShort | servers/network.h:354 | n dotted numbers followed by neither a digit nor a dot fail to scan as more than n |
| NetworkFormat.ScanShortOne | servers/network.h:354 | a single numeral followed by neither a digit nor a dot does not scan as two or more |
| NetworkFormat.ScanShortStep | servers/network.h:354 | if the numbers after the first do not scan as one fewer, the whole does not scan |
| NetworkFormat.FewerThanFourFallBack | servers/network.h:352-360 | one to three dotted numbers give the fallback address 0.42.42.42 |
| NetworkFormat.ThreeNumbersFallBack | servers/network.h:352-360 | "10.0.1" gives 0.42.42.42 |
| NetworkFormat.Hex2RoundTrip | servers/network.h:366 | `%02x` gives two lowercase hex digits that read back as the byte |
| NetworkFormat.HexHasNoColon | servers/network.h:366 | the two hex digits hold no colon |
| NetworkFormat.MacTextLayout | servers/network.h:362-371 | the text for n bytes has length 2n + min(n, 5), the digits of byte i at 2i + min(i, 5) and a colon after each of the first five bytes |
| NetworkFormat.MacTextColons | servers/network.h:362-371 | the text holds exactly min(n, 5) colons |
| NetworkFormat.SixByteMac | servers/network.h:362-371 | a six-byte address gives 17 characters with 5 colons |
| NetworkFormat.MacAddressAsString | servers/network.h:362-371 | the loop builds MacText: its length, its digits per byte, its colons and their count |
| NetworkFormat.PaddedShape | servers/network.h:390-393 | padding keeps the string as prefix, adds only spaces, and reaches length max(length, n) |
| NetworkFormat.PaddedIdempotent | servers/network.h:390-393 | padding twice to a length is padding once |
| NetworkFormat.AppendString | servers/network.h:390-393 | the loop pads to toLength taken as unsigned, and leaves a long enough string unchanged |

## Left out

- FreeRTOS concurrency is left out: task creation (only its success is a boolean input), `vTaskDelete`, the critical sections, the self-deleting `__connectionHandler__`, and the destructors' waits on `__threadEnded__` and `__listenerState__`. Each call runs alone here.
- The server constructors' wait while the state is NOT_RUNNING is left out. If the listener task is not created it never ends, and that is concurrency.
- `SPIFFSsafeDelay` is a yield and changes nothing in the model.
- The socket calls (`socket`, `bind`, `listen`, `accept`, `fcntl`, `connect`, `getsockname`, `recv`, `send`, `close`) and `inet_ntoa`/`inet_addr` are foreign calls. Their results are script inputs. `close` is recorded in ghost sequences.
- `recv ()` fills a buffer, and the model does not keep that buffer's contents. Only byte counts are modelled.
- TcpConnections.TcpConnection.RecvData: `recv ()` is assumed never to report more bytes than `bufferSize`. The count comes from the script unbounded, so the model does not promise that the result is at most `bufferSize`.
- TcpConnections.TcpConnection.Available: on handle -1 the peek is taken to fail with EBADF, as lwIP's `recv ()` does for an invalid descriptor, rather than read from the script.
- `send ()` is assumed never to report more bytes than it was offered; a larger count is read as the whole chunk.
- All logging (`log_v`, `log_i`, `log_e`, `Serial.printf`) is left out, since it produces output only.
- TcpConnections.TcpConnection.SetTimeOut: the source declares a `bool` result but returns nothing, so its value is undefined. The model returns nothing.
- TcpConnections.TcpConnection.SendData: `bufferSize` is a natural number. A negative `int` size, which the source would pass to `send ()` unchecked, is not modelled.
- When `new` returns NULL in `__newConnection__` or in the client, the socket is closed. That path is left out, because allocation failure is not modelled.
- The threaded server keeps no reference to a connection whose thread started. What that thread later does with it is the handler's code.
- The accessors (`connection`, `getOtherSideIP`, `getTimeOut`, `TcpConnection::started`, `TcpConnection::timeOut`) are plain fields of the model.
- The server's bind address and port (`__serverIP__`, `__serverPort__`, returned by `getServerIP` and `getServerPort`) are not modelled. `bind ()` is a scripted result, so the address it binds to plays no part.
- TcpServers.TcpServer.HandlePoll: one `Tick` carries one clock reading. The source reads `millis ()` twice, once in `timeOut ()` and once for the new connection's `__lastActiveMillis__`, and the model uses the same value for both.
- `connectNetwork`, `network_doThings`, the WiFi event handler, `ifconfig`, `arp_a` and the ARP table lookup are left out. They do file, radio and lwIP I/O.
- Arduino `WString` is not part of this model. `String` is `seq<char>`, and `indexOf` is stated by its documented behaviour.
- NetworkFormat.IPAddressFromString: it reads decimal digits only. `%i`'s leading whitespace, signs, octal (`010`) and hexadecimal (`0x..`) forms, and overflow, are not modelled. The round trip and the fallback lemmas concern decimal text without leading zeros, which is what inet_ntoString writes.
- NetworkFormat.AppendString: a negative `toLength` pads to `toLength` modulo 2^32 characters, as the unsigned comparison says. On the device this would run out of memory first.
- NetworkConfig.StepRules, NetworkFormat.MacPositionBelow, NetworkFormat.DottedListSplit and the other small helper lemmas need no proof steps. They state single steps that the larger lemmas use.
