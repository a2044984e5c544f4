# Verification of the gnostr core

A Dafny model of the parts of gnostr that compute: its cipher and hash, the serialisation and
mining of events, encrypted messages, the WebSocket engine, the JavaScript minifier and the
gossip of the swarm. Each part that works step by step is a method on arrays or on an object,
proved against a function or an invariant; what the program promises is proved of those.

`dafny verify dfyconfig.toml` checks the whole project.

| files | what they model |
|---|---|
| `Swarm*.dfy` | a network of nodes that exchange the databases they know, with handlers that interleave at every `await`, the same network made of mutable nodes, and the subscriptions of one node |
| `Aes*.dfy` | AES-256: tables, field, rounds on an in-place block, key schedule, CBC and CTR |
| `Sha256*.dfy` | SHA-256: the unrolled compression function and the streaming interface |
| `Js*.dfy` | the minifier, with its two characters in hand and one of lookahead: the lexical rules it applies, what it may change, its output as a function, the program, and what the output means when it is lexed again |
| `ScopeRunner.dfy`, `SendQueue.dfy` | two protocols of the WebSocket engine, as state machines over their atomic steps |
| `Ws*.dfy` | frames, reassembly and the two readers |
| `Hex.dfy`, `Cursor.dfy`, `NostrEvent.dfy`, `EventCommitment.dfy`, `EventReader.dfy` | the serialisation of events in a bounded buffer |
| `ProofOfWork.dfy`, `Mining.dfy` | leading zero bits and mining |
| `Base64.dfy`, `EncryptedMessage.dfy`, `ToBase.dfy` | base 64, encrypted messages, numerals |
| `Bytes.dfy` | bytes, numbers and their digits |
| `*Standard.dfy`, `JsTable.dfy`, `EventReader.dfy`, `SwarmHistory.dfy` | what the functions of the model mean in terms that do not name them: the standards, character codes, a reader, the history of a run |

Some things hold of the code only under a condition, which is proved to be exact:

- base 64 decodes what it encoded for every string exactly when the alphabet has `A` and not `=`
  (`Base64.RoundTripIff`);
- no other event has the bytes of an event exactly when its time has fewer than 15 digits
  (`NostrEvent.SameBytesIff`), since the serialisation cuts the time off after 15;
- a message is delivered exactly when every frame, control frames included, stays within the size
  limit together with the fragments before it (`WsStream.Reassembly`);
- the output of the minifier, lexed again, gives the items that it wrote exactly when no plain slash
  of the input starts a line after a brace, a plus or a minus (`JsMeaning.OutputMeansInput`): the
  linefeed is dropped, and then the slash starts a regular expression;
- two operators that blanks keep apart stay apart, except for a plus or minus, a linefeed, and a
  star or slash (`JsMinified.OperatorsStayApart`);
- a frame over the size limit is refused, except when the sum in the check wraps around
  (`WsStream.LongFrame`);
- of a stream, the server leaves as many bytes at the end unserved as came with the handshake
  request (`WsServer.RunsBehind`);
- every nonce makes another serialisation exactly for events without explicit tags
  (`Mining.NonceIsSerialised`);
- the buffer for an encrypted message holds its padding exactly when the length modulo 16 is at
  least 8 (`EncryptedMessage.RoomForPadding`).

Words of 32 bits and lengths are numbers with the reduction modulo 2^32 or 2^64 written out.
AES and SHA-256 work on bit-vector bytes, the other parts on bytes as numbers. In `Base64` and
`WsFrame` masks and shifts are written as remainders and quotients by powers of two.

## Model

| member | source | states |
|---|---|---|
| SwarmAgreement.StepKeepsFlow | template/swarm.js:28-60 | every step keeps the invariant: a url known to u is known to its peer v, or on its way, or in a handler of v, or u has still to broadcast |
| SwarmAgreement.RunKeepsFlow | template/swarm.js:28-60 | the invariant holds after every run |
| SwarmAgreement.QuiescentPathKnows | template/swarm.js:28-60 | in a quiet network a url travels along every path of connections |
| SwarmAgreement.Agreement | template/swarm.js:28-93 | after any run, whenever nothing is in flight or pending, nodes that reach each other over connections of the history know the same databases |
| SwarmHistory.PeersAreLinked | template/swarm.js:48-60 | from the start, a node lists exactly those peers that joined it and have not left since, whatever else has happened |
| SwarmHistory.MayJoinIff | template/swarm.js:48-60 | any node can join another exactly when it is not linked by that history |
| SwarmHistory.JoiningSends | template/swarm.js:48-60 | a peer that joins is asked for its databases and told every url known; so is every other peer |
| SwarmHistory.AskingIsAnswered | template/swarm.js:44-47 | a node that is asked tells every peer every url it knows |
| SwarmHistory.LoseIs | template/swarm.js:48-49 | when a peer leaves, just what is on its way to it from that node is lost |
| SwarmSafety.ResumeKeepsInvariant | template/swarm.js:30-42 | a piece of a handler keeps the account: each known url is the local one or was, or will be, passed to addInput, once in all; broadcasts are paid for by added urls |
| SwarmSafety.AddedAtMostOnce | template/swarm.js:89-93 | addInput is called at most once for a url, never for the node's own, and for every other known url by the time no handler is pending |
| SwarmSafety.Safety | template/swarm.js:30-42 | the same in every interleaving, and the sync handler broadcasts at most once for each url it added |
| SwarmSafety.RunStaysWithin | template/swarm.js:30-42 | no run makes up a url |
| SwarmConvergence.ProceedCosts | template/swarm.js:30-42 | each piece of a handler lowers a weight of the whole network, re-broadcasts included |
| SwarmConvergence.DeliverCosts | template/swarm.js:28-47 | each delivery lowers the weight |
| SwarmConvergence.RunIsBounded | template/swarm.js:28-60 | a run without peer changes is no longer than the weight of its first state |
| SwarmConvergence.Convergence | template/swarm.js:28-60 | after any run, once peers stop changing, the gossip ends, and it can go no further exactly when the network is quiet |
| SwarmConvergence.KnowsEverything | template/swarm.js:16-60 | a quiet node that all nodes reach over connections of the history knows exactly the local databases of all nodes |
| SwarmConvergence.TwoNodes | template/swarm.js:16-60 | for example, two nodes that join each other both know both databases once all is quiet |
| SwarmNode.SwarmState.Proceed | template/swarm.js:30-42 | the handler on a node's mutable state does what the step function says, and returns its broadcasts |
| SwarmNode.SwarmState.InitConnection | template/swarm.js:55-60 | asks every peer and then sends every peer the known urls |
| SwarmNode.SwarmState.BroadcastDBs | template/swarm.js:81-83 | sends every peer the known urls |
| SwarmNode.SwarmState.OnSync | template/swarm.js:30-31 | a message starts a handler at its first url |
| SwarmNode.SendsFirstOccurrences | template/swarm.js:102-107 | a subscription record sends exactly the first occurrence of each event id offered to it, in order, so no id twice |
| SwarmNode.FirstOccurrencesAre | template/swarm.js:102-107 | these are the ids offered, each once, and what is offered later comes later |
| SwarmNode.Subscription.SendEventTo | template/swarm.js:102-107 | sends an event unless it was sent before, keeping the set of ids received equal to what was sent |
| SwarmNode.Subscription.SendEvents | template/swarm.js:95-99 | offers the events of a query from the last to the first |
| SwarmNode.StreamEvent | template/swarm.js:69-73 | offers an event to exactly the records whose filters it matches |
| SwarmNetwork.NetworkState.Deliver | template/swarm.js:30-47 | on a network of mutable nodes, a delivery is the step of the network that the theorems speak of |
| SwarmNetwork.NetworkState.Proceed | template/swarm.js:30-42 | so is a piece of a handler, with what it sends |
| SwarmNetwork.NetworkState.Run | template/swarm.js:28-60 | whatever run the mutable nodes make, they end in the state after that run of the network, with the peers of its history |
| AesTables.InvSBoxUndoesSBox | aes.c:79-115 | rsbox undoes sbox for every byte |
| AesTables.SBoxUndoesInvSBox | aes.c:79-115 | sbox undoes rsbox for every byte |
| AesField.SBoxIsAffineOfInverse | aes.c:79-96 | sbox is the affine map of the inverse in GF(2^8), FIPS 197 section 5.1.1 |
| AesField.MultiplyIsFieldProduct | aes.c:329-334 | the Multiply macro is the product in GF(2^8) for the four constants of InvMixColumns |
| AesField.MatricesAreInverse | aes.c:300-366 | the matrices of MixColumns and InvMixColumns are inverse on every column, both ways |
| AesBlock.AddRoundKey | aes.c:237-247 | adds the round key to the state in place and touches nothing else |
| AesBlock.SubBytes | aes.c:251-261 | substitutes the state in place |
| AesBlock.ShiftRows | aes.c:266-292 | the swaps shift the rows of the state in place |
| AesBlock.MixColumns | aes.c:300-313 | the xtime form is the product with the FIPS 197 matrix, in place |
| AesBlock.InvMixColumns | aes.c:350-366 | the Multiply form is the product with the inverse matrix, in place |
| AesBlock.InvSubBytes | aes.c:371-381 | substitutes back in place |
| AesBlock.InvShiftRows | aes.c:383-409 | the swaps shift the rows back in place |
| AesCipher.ShiftMovesRows | aes.c:266-292 | row j of the shifted state is row j moved by j columns |
| AesBlock.Cipher | aes.c:413-436 | the loop encrypts the block in place, for any 240 bytes of round keys |
| AesBlock.InvCipher | aes.c:439-461 | the loop decrypts the block in place |
| AesStandard.EncryptIsFips | aes.c:413-436 | byte by byte, each round substitutes, turns the rows, mixes the columns and adds the round key, the last without mixing |
| AesCipher.InvRoundsUndoRounds | aes.c:413-461 | the inverse rounds undo the rounds, from any round on |
| AesCipher.DecryptUndoesEncrypt | aes.c:413-461 | InvCipher undoes Cipher for every state and every round-key array |
| AesCipher.EncryptUndoesDecrypt | aes.c:413-461 | Cipher undoes InvCipher for every state and every round-key array |
| AesContext.KeyExpansion | aes.c:146-217 | the key comes first, and every later word is, byte by byte, what FIPS 197 section 5.2 makes of the words 8 and 1 before it, with the round constants as powers of x |
| AesStandard.ExampleKey | aes.c:146-217 | words 8 to 12 of the example of FIPS 197 appendix A.3 |
| AesContext.ExpandWord | aes.c:161-216 | one word of the schedule from the two that it depends on |
| AesContext.Context.constructor | aes.c:224-228 | a context holds the schedule of its key, byte by byte, and the IV |
| AesCbc.CbcEncryptBuffer | aes.c:501-514 | encrypts a buffer of any number of blocks in place, chaining through the buffer, and leaves the last ciphertext block as IV |
| AesCbc.CbcDecryptBuffer | aes.c:516-529 | decrypts in place and leaves the last ciphertext block as IV |
| AesCbc.XorWithIv | aes.c:492-499 | adds the chaining value to one block, also when that is the block before in the same buffer |
| AesStandard.CbcBlock | aes.c:501-514 | every block is added to the ciphertext block before it, the first to the IV, and encrypted, SP 800-38A section 6.2 |
| AesCbc.CbcRoundTrip | aes.c:501-529 | decrypting what was encrypted restores it, for every invertible cipher, IV and whole number of blocks |
| AesCbc.CbcRoundTripBack | aes.c:501-529 | encrypting what was decrypted restores it |
| AesCbc.BufferRoundTrip | aes.c:501-529 | both round trips for this cipher under any round keys |
| AesCbc.EncryptThenDecrypt | aes.c:501-529 | on buffers: decrypting in place with a context of the same keys and IV restores the buffer, and both contexts end with the last ciphertext block as IV |
| AesCbc.CbcEncryptSplit | aes.c:501-514 | cutting the buffer at a block boundary into two calls changes nothing |
| AesCbc.CbcDecryptSplit | aes.c:516-529 | the same for decryption |
| AesCbc.CbcSelfSynchronises | aes.c:516-529 | another IV changes the first block of the plaintext only |
| AesCtr.IncrementIv | aes.c:553-563 | the carry loop increments the IV as one number |
| AesCtr.IncrementAddsOne | aes.c:553-563 | which is adding one to its big-endian value modulo 2^128 |
| AesCtr.CounterValue | aes.c:553-563 | after n blocks the counter is the IV plus n modulo 2^128 |
| AesCtr.CtrXcryptBuffer | aes.c:538-572 | the byte loop combines the buffer in place with the keystream of SP 800-38A section 6.5, whatever the length |
| AesStandard.CtrIs | aes.c:538-572 | every byte is combined with that of the encrypted counter block whose number is that of the IV plus the number of the block |
| AesCtr.CtrTwice | aes.c:538-572 | doing it twice restores the data |
| AesCtr.CtrNextCall | aes.c:538-572 | a call goes on with the keystream where the IV left by the last one says |
| AesCtr.CtrSplit | aes.c:538-572 | cutting the data at a block boundary into two calls changes nothing |
| Sha256Standard.ChIsFips | sha256.c:52-55 | each bit of Ch is that of y where x has a one and that of z elsewhere, FIPS 180-4 section 4.1.2 |
| Sha256Standard.MajIsFips | sha256.c:56-59 | each bit of Maj is the majority of the three bits |
| Sha256Standard.BigSigma0IsFips | sha256.c:60-63 | each bit is the sum of the bits 2, 13 and 22 places further up, around the word |
| Sha256Standard.BigSigma1IsFips | sha256.c:64-67 | the same for 6, 11 and 25 places |
| Sha256Standard.SmallSigma0IsFips | sha256.c:68-71 | the same for 7 and 18 places and a shift by 3 |
| Sha256Standard.SmallSigma1IsFips | sha256.c:72-75 | the same for 17 and 19 places and a shift by 10 |
| Sha256Standard.ConstantsAreRoots | sha256.c:92-158 | the constants are the first 32 bits of the fractional parts of the cube roots of the first 64 primes, section 4.2.2 |
| Sha256Standard.InitialAreRoots | include/sha256.h:111-114 | the initial values are those of the square roots of the first 8, section 5.3.3 |
| Sha256Standard.CompressionIsFips | sha256.c:87-168 | the chaining value after a block is that of section 6.2.2, from any schedule and table of variables that its equations allow |
| Sha256Standard.HashIsFips | sha256.c:171-233 | the hash is the last chaining value of the message, padded as in section 5.1.1 and cut into blocks |
| Sha256Transform.Round | sha256.c:78-84 | a round on the rotated register names is one step of the standard |
| Sha256Transform.ExtendedInOrder | sha256.c:157-158 | the order of the additions in the last two rounds gives the same schedule words |
| Sha256Transform.Rounds | sha256.c:87-158 | the 64 unrolled rounds with 16 schedule words in place are the 64 steps of FIPS 180-4 section 6.2.2 |
| Sha256Transform.Transform | sha256.c:87-168 | Transform adds the result of the 64 steps to the chaining value in place |
| Sha256.ZeroBytes | sha256.c:219-233 | the padding has the smallest number of zero bytes that fills a block, FIPS 180-4 section 5.1.1 |
| Sha256.BitCountIs | sha256.c:225-225 | the 64-bit count of bits is exact if and only if the message is shorter than 2^61 bytes |
| Sha256.PadLengthIs | sha256.c:226-229 | the first padding add has 1 to 64 bytes and leaves room for the count |
| Sha256.PaddingIs | sha256.c:219-229 | the padding written is that of the standard |
| Sha256.HashBlocksAppend | sha256.c:171-204 | hashing whole blocks in two parts is hashing them in one |
| Sha256.Context.Add | sha256.c:171-204 | whatever was added before, the chaining value, the buffer and the count are those of all bytes added so far |
| Sha256.Context.Update | sha256.c:212-217 | the state after an update is that of the longer message |
| Sha256.Context.Done | sha256.c:219-233 | for any cutting of a message below 2^61 bytes into updates, the result is its SHA-256, and the context is spent |
| Sha256.Sha256 | sha256.c:236-243 | the one-call form is the hash |
| JsMin.Minifier.Get | template/gnostr-jsmin.c:66-79 | takes one character, with control characters translated, or reports the end |
| JsMin.Minifier.Peek | template/gnostr-jsmin.c:85-88 | shows the next character and keeps what is still to be read |
| JsMin.Minifier.Next | template/gnostr-jsmin.c:95-127 | takes a character or a whole comment, which counts as a blank; it fails exactly for a block comment without an end mark |
| JsMin.Minifier.SkipLine | template/gnostr-jsmin.c:97-105 | a line comment ends at its first linefeed or at the end of the input |
| JsMin.Minifier.SkipBlock | template/gnostr-jsmin.c:106-120 | a block comment ends at its first end mark; it fails exactly when there is none |
| JsMin.Minifier.CopyString | template/gnostr-jsmin.c:151-167 | a string is written out up to its first closing quote that is not escaped; it fails exactly when there is none |
| JsMin.Minifier.CopySet | template/gnostr-jsmin.c:184-201 | a set in a regular expression is written out up to its closing bracket; it fails exactly when there is none |
| JsMin.Minifier.CopyRegExp | template/gnostr-jsmin.c:181-218 | a regular expression is written out up to the slash that closes it; it fails exactly when there is none or a comment would start after it |
| JsMin.Minifier.FetchB | template/gnostr-jsmin.c:168-221 | fetching b, with a regular expression exactly where one can be, keeps the account of everything read and written; when it fails the input cannot be lexed |
| JsMin.Minifier.Action | template/gnostr-jsmin.c:139-222 | an action keeps the account: the output is that of the items done but for the character in hand, a blank kept between two operators included; it lowers a measure, so that the run ends; when it fails the input cannot be lexed |
| JsMin.Minifier.JsMin | template/gnostr-jsmin.c:231-305 | it succeeds if and only if its input can be lexed; then the output is determined, item by item, by the lexed input, and it has the significant items of the input in order, run together into the same words, no comments, not even new ones formed of neighbours, and only blanks that are needed |
| JsMinified.MinifiedIsOutput | template/gnostr-jsmin.c:139-305 | the same of the output as a function of the lexed input |
| JsMinified.OperatorsStayApart | template/gnostr-jsmin.c:142-147 | two operators come together in the output if and only if they do in the input, or a linefeed was between a plus or a minus and a star or a slash |
| JsMinified.LinefeedsAreKept | template/gnostr-jsmin.c:231-305 | a linefeed, or a line comment, between two items is kept where a line may end and another one start, or right before an operator when the one before it is a star or a slash, and nowhere else |
| JsTable.OutputIsTable | template/gnostr-jsmin.c:139-305 | between every two neighbours the output has what a table by character codes says, from what the input has between them |
| JsTable.WordsStayApart | template/gnostr-jsmin.c:48-58 | letters, digits, underscores, dollars, backslashes and characters that are not ASCII have one blank between them exactly where the input has something between them |
| JsTable.TwoWords | template/gnostr-jsmin.c:48-58 | as text, for two such characters with a blank between them |
| JsTable.SpacesAre | template/gnostr-jsmin.c:139-305 | exactly when a space is written between two neighbours |
| JsTable.LiteralsAre | template/gnostr-jsmin.c:168-176 | a slash opens a regular expression exactly after one of 17 characters, by code, unless a linefeed that is kept comes in between; strings start with one of three quotes |
| JsTable.CommentsAre | template/gnostr-jsmin.c:95-127 | a line comment counts as a linefeed and a block comment as a space |
| JsTable.LineEndsAt | template/gnostr-jsmin.c:97-105 | a line comment ends at its first linefeed |
| JsTable.BlockEndsAt | template/gnostr-jsmin.c:106-120 | a block comment ends at its first end mark |
| JsTable.StringEndsAt | template/gnostr-jsmin.c:151-167 | a string ends at its first quote that does not come after an odd number of backslashes |
| JsTable.RegExpEndsAt | template/gnostr-jsmin.c:181-218 | a regular expression ends at its first slash that is neither escaped nor in a set |
| JsMin.TranslatedIs | template/gnostr-jsmin.c:66-79 | a carriage return becomes a linefeed, any other control character but a linefeed a space, and the rest stays |
| JsMin.MarkIs | template/gnostr-jsmin.c:232-236 | a byte order mark is skipped, and nothing else |
| JsLex.LexIff | template/gnostr-jsmin.c:95-222 | the lexical rules are unambiguous: the lexing found is the only list of items with the text of the input that obeys the grammar, and there is one exactly when the lexing succeeds |
| JsOutput.OutputIsCodeText | template/gnostr-jsmin.c:231-305 | so the output without spaces and linefeeds is the text of the input outside comments without them |
| JsMeaning.WrittenIsLexed | template/gnostr-jsmin.c:139-305 | what is written obeys the grammar exactly when no slash of the input is stray: a plain slash at the start of a line after a brace, a plus or a minus |
| JsMeaning.OutputMeansInput | template/gnostr-jsmin.c:139-305 | lexed again, the output gives exactly the items written, if and only if the input has no stray slash |
| JsMeaning.StrayExample | template/gnostr-jsmin.c:260-280 | an input whose output cannot be lexed any more |
| ScopeRunner.StepKeepsInvariant | ext/Simple-WebSocket-Server-v2.0.2/utility.hpp:446-475 | each atomic operation, with or without a spurious failure, keeps: the count is the number of live locks, or -1 with none; and -1 stays |
| ScopeRunner.CountIsLives | ext/Simple-WebSocket-Server-v2.0.2/utility.hpp:446-475 | the same in every state of every run of any number of calls |
| ScopeRunner.StopExcludes | ext/Simple-WebSocket-Server-v2.0.2/utility.hpp:456-475 | once a stop has returned no lock is live, and no later call ever gets one |
| ScopeRunner.RefusalMeansStop | ext/Simple-WebSocket-Server-v2.0.2/utility.hpp:456-465 | continue_lock returns null only after a stop succeeded |
| ScopeRunner.RefusedSoon | ext/Simple-WebSocket-Server-v2.0.2/utility.hpp:456-465 | in every run, a call that a stop has overtaken, or that comes later, returns null in at most two of its own steps, whatever the swaps do and the other calls in between |
| ScopeRunner.StopsSoon | ext/Simple-WebSocket-Server-v2.0.2/utility.hpp:468-475 | in every run, while no lock is live and its own swaps do not fail spuriously, a stop returns in at most three of its own steps |
| ScopeRunner.StopWaits | ext/Simple-WebSocket-Server-v2.0.2/utility.hpp:468-475 | in every run, a stop has not returned while a lock is still live |
| SendQueue.StepKeepsInvariant | ext/Simple-WebSocket-Server-v2.0.2/client_ws.hpp:147-229 | sends, completions, callbacks and stops keep the invariant below in every interleaving |
| SendQueue.AtMostOneInFlight | ext/Simple-WebSocket-Server-v2.0.2/client_ws.hpp:147-229 | at most one write is in flight, one exactly when the queue is not empty, and writes start in the order of send |
| SendQueue.NoCallbackTwice | ext/Simple-WebSocket-Server-v2.0.2/client_ws.hpp:153-183 | no callback is called twice, or with another outcome than its message had |
| SendQueue.AllCalledWhenQuiet | ext/Simple-WebSocket-Server-v2.0.2/client_ws.hpp:153-183 | when all is done and the runner was not stopped, each callback was called exactly once, and without errors everything was written in order |
| SendQueue.QueueDrains | ext/Simple-WebSocket-Server-v2.0.2/client_ws.hpp:153-183 | every completion and every callback leaves less to do |
| SendQueue.SuccessMovesOn | ext/Simple-WebSocket-Server-v2.0.2/client_ws.hpp:153-166 | after a write, its message leaves the queue, its callback is called if it has one, and the next write starts |
| SendQueue.FailureEmpties | ext/Simple-WebSocket-Server-v2.0.2/client_ws.hpp:167-183 | after a failed write the queue is given up: nothing more is written, and every callback in it is called with the failure, in order |
| SendQueue.Connection.Send | ext/Simple-WebSocket-Server-v2.0.2/client_ws.hpp:226-229 | on the connection's fields: enqueues, and starts a write only for an empty queue |
| SendQueue.Connection.SendFromQueue | ext/Simple-WebSocket-Server-v2.0.2/client_ws.hpp:147-150 | starts the write of the first message in the queue |
| SendQueue.Connection.OnWritten | ext/Simple-WebSocket-Server-v2.0.2/client_ws.hpp:150-183 | on the connection's fields: the handler does what the step says and returns the callbacks to be called after unlocking |
| SendQueue.Connection.Callbacks | ext/Simple-WebSocket-Server-v2.0.2/client_ws.hpp:171-176 | the callbacks of the whole queue, in its order |
| SendQueue.Connection.SendClose | ext/Simple-WebSocket-Server-v2.0.2/client_ws.hpp:241-257 | sends a close frame the first time only |
| WsFrame.PutLength | ext/Simple-WebSocket-Server-v2.0.2/client_ws.hpp:201-220 | the length in its 7-bit, 16-bit or 64-bit form, section 5.2 of RFC 6455 |
| WsFrame.ClientSend | ext/Simple-WebSocket-Server-v2.0.2/client_ws.hpp:188-225 | the first byte, the length in its form with the mask bit, the mask, and each byte of the message combined by exclusive or with the byte of the mask whose turn it is |
| WsFrame.XorIs | ext/Simple-WebSocket-Server-v2.0.2/client_ws.hpp:223-224 | the combination is the exclusive or of bytes |
| WsFrame.ServerSend | ext/Simple-WebSocket-Server-v2.0.2/server_ws.hpp:206-228 | the same without a mask |
| WsFrame.HeaderRoundTrip | ext/Simple-WebSocket-Server-v2.0.2/server_ws.hpp:602-687 | every length form is read back, for all lengths below 2^64 |
| WsFrame.MaskedTwice | ext/Simple-WebSocket-Server-v2.0.2/server_ws.hpp:726-727 | unmasking restores the payload |
| WsFrame.ReadLength | ext/Simple-WebSocket-Server-v2.0.2/server_ws.hpp:645-648 | the loop over the length bytes gives their big-endian value |
| WsServer.Connection.ReadMessage | ext/Simple-WebSocket-Server-v2.0.2/server_ws.hpp:602-687 | reads one frame exactly as the function of the stream says, or waits, however many bytes came with the handshake request; as many bytes at the end of the stream wait in the buffer |
| WsServer.Connection.ReadMessageContent | ext/Simple-WebSocket-Server-v2.0.2/server_ws.hpp:689-781 | the same for the content: refuses what is too big, else reads mask and payload and reacts; open only for a length within 4 of 2^64 that the size check let through |
| WsServer.Connection.ReadPayload | ext/Simple-WebSocket-Server-v2.0.2/server_ws.hpp:704-727 | each byte of the payload is combined by exclusive or with the byte of the mask whose turn it is, into the message that it belongs to |
| WsServer.Connection.React | ext/Simple-WebSocket-Server-v2.0.2/server_ws.hpp:729-777 | close, ping, pong, fragment or message, by the first byte |
| WsServer.Connection.Run | ext/Simple-WebSocket-Server-v2.0.2/server_ws.hpp:602-781 | serves message after message as the function of the whole stream says |
| WsServer.RunsBehind | ext/Simple-WebSocket-Server-v2.0.2/server_ws.hpp:524-535 | when some bytes of a stream come with the handshake request, the server serves the stream without as many bytes at its end |
| WsServer.ServerReceives | ext/Simple-WebSocket-Server-v2.0.2/server_ws.hpp:602-781 | what a client sends in fragments, with any masks, is delivered |
| WsClient.Connection.AsyncRead | ext/Simple-WebSocket-Server-v2.0.2/client_ws.hpp:475-475 | reads just what is missing, given that numAdditional is the size of the buffer |
| WsClient.Connection.ReadMessage | ext/Simple-WebSocket-Server-v2.0.2/client_ws.hpp:473-558 | numAdditional is the size of the unread buffer on entry and for the next call, and the frame is read from buffer and network together |
| WsClient.Connection.ReadMessageContent | ext/Simple-WebSocket-Server-v2.0.2/client_ws.hpp:560-589 | the same for the payload; what is left over goes on to the next message |
| WsClient.Connection.SplitMessage | ext/Simple-WebSocket-Server-v2.0.2/client_ws.hpp:576-589 | bytes beyond the payload are left to the next message object, and the payload is moved to a new one |
| WsClient.Connection.React | ext/Simple-WebSocket-Server-v2.0.2/client_ws.hpp:591-666 | close, ping, pong, fragment or message; control frames stay apart from fragments, which are moved into one message object |
| WsClient.Connection.Run | ext/Simple-WebSocket-Server-v2.0.2/client_ws.hpp:473-672 | what is delivered depends on buffer and network together only |
| WsClient.RunsAlike | ext/Simple-WebSocket-Server-v2.0.2/client_ws.hpp:441-672 | the client delivers the same however many bytes came with the upgrade response |
| WsClient.ClientReceives | ext/Simple-WebSocket-Server-v2.0.2/client_ws.hpp:473-672 | what a server sends in fragments is delivered, wherever the stream is cut at the upgrade |
| WsStream.FrameRoundTrip | ext/Simple-WebSocket-Server-v2.0.2/server_ws.hpp:602-727 | a frame written by either side is read by the other with its first byte and payload, and nothing more is taken |
| WsStream.ServeFeeds | ext/Simple-WebSocket-Server-v2.0.2/server_ws.hpp:602-781 | serving the bytes of any frames with any masks is serving the frames |
| WsStream.Reassembly | ext/Simple-WebSocket-Server-v2.0.2/server_ws.hpp:689-777 | for every stream of fragmented messages with interleaved control frames (RFC 6455 section 5.4), both sides deliver each message whole with its first opcode and answer pings with the same payload, exactly when no frame goes over the size limit; otherwise the log has just what came before the offending frame, and then the close with 1009 |
| WsStream.PingBetween | ext/Simple-WebSocket-Server-v2.0.2/server_ws.hpp:743-777 | in the bytes of RFC 6455: a text in two fragments with a ping between them gives a pong of the same payload and the text whole |
| WsStream.RefusalsAre | ext/Simple-WebSocket-Server-v2.0.2/server_ws.hpp:689-697 | the closing frames of the two errors, with their codes |
| WsStream.PartsAreServed | ext/Simple-WebSocket-Server-v2.0.2/client_ws.hpp:560-666 | the same for one message from any fragment on |
| WsStream.SentIsDelivered | ext/Simple-WebSocket-Server-v2.0.2/client_ws.hpp:188-230 | a list of messages sent on one side arrives as the same list, for any masks and lengths below 2^63 |
| WsStream.CloseIsAnswered | ext/Simple-WebSocket-Server-v2.0.2/server_ws.hpp:729-741 | a close frame is answered once with the same payload, and ends the serving |
| WsStream.DeliveredIsBounded | ext/Simple-WebSocket-Server-v2.0.2/server_ws.hpp:689-697 | on any stream at all, no message longer than the limit is delivered |
| WsStream.LongFrame | ext/Simple-WebSocket-Server-v2.0.2/server_ws.hpp:689-697 | a frame longer than the limit is refused, unless its length and that of the fragments held wrap around 2^64 to the limit or less; then it is never delivered |
| WsStream.BeyondIff | ext/Simple-WebSocket-Server-v2.0.2/server_ws.hpp:689-699 | the model ends exactly at a frame to the server whose length is within 4 of 2^64 and wraps in the size check; never with nothing held |
| WsStream.Segmented | ext/Simple-WebSocket-Server-v2.0.2/server_ws.hpp:602-781 | serving a stream in two parts, cut anywhere, is serving it whole |
| EventReader.EventIsRead | gnostr.c:130-242 | a reader of JSON strings, numbers and lists gets every field of an event back from its place in the array of NIP-01 |
| EventReader.StringIsRead | gnostr.c:130-164 | and every string, with the escapes of RFC 8259 |
| NostrEvent.BodyUnique | gnostr.c:130-164 | an escaped string can be undone and told from what follows it |
| NostrEvent.ListUnique | gnostr.c:166-206 | a list of strings or tags can be told from what follows it |
| NostrEvent.CommitmentInjective | gnostr.c:209-242 | two events without explicit tags have the same bytes if and only if they agree in everything but digits of the time beyond the 15th |
| NostrEvent.SameBytesIff | gnostr.c:211-222 | no other event without explicit tags has the same bytes if and only if the time has fewer than 15 digits |
| NostrEvent.SmallTimesInjective | gnostr.c:209-242 | events with times below 10^15 are determined by their bytes |
| Cursors.Cursor.PushByte | include/cursor.h:120-130 | a byte fits if the end is not passed |
| Cursors.Cursor.Push | include/cursor.h:222-234 | bytes fit only if one more would |
| EventCommitment.PushEscapedChar | gnostr.c:130-143 | writes one character, escaped |
| EventCommitment.PushJsonStr | gnostr.c:145-164 | writes the whole string in quotes, or there was no room for it and one more byte |
| EventCommitment.PushTag | gnostr.c:166-183 | the same for a tag |
| EventCommitment.PushTags | gnostr.c:185-206 | the same for the tags of an event, or its explicit tags |
| EventCommitment.EventCommitment | gnostr.c:209-242 | gives the whole serialisation and its length exactly when that is less than buflen, else 0, and writes nothing beyond buflen |
| Hex.RoundTrip | include/hex.h:4-70 | decoding undoes encoding |
| Hex.RoundTripBack | include/hex.h:4-70 | encoding what was decoded gives the text with small letters |
| Hex.DigitsAre | include/hex.h:43-70 | the two digits of each byte, by code |
| Hex.IsDigitIff | include/hex.h:4-20 | what counts as a digit |
| Hex.HexEncode | include/hex.h:53-70 | writes the digits and a zero byte if they fit, and nothing otherwise |
| Hex.HexDecode | include/hex.h:21-37 | succeeds exactly for hexadecimal text that fills the buffer, and then fills it |
| Mining.NonceIsSerialised | gnostr.c:185-206 | two nonces make the same serialisation if and only if they are equal or the event has explicit tags |
| Mining.GoesOn | gnostr.c:642-670 | a nonce does not end the trying exactly when the event with its tag fits and its id is not below the bound |
| Mining.NamesAre | gnostr.c:620-640 | the name of the tag, and the limits |
| Mining.FirstOrNever | gnostr.c:642-670 | with explicit tags, trying ends at the first nonce or never |
| ProofOfWork.CountZeroBits | include/proof.h:3-14 | the shifting loop counts the leading zero bits of a byte |
| ProofOfWork.CountLeadingZeroBits | include/proof.h:17-28 | the loop counts the leading zero bits of the hash |
| ProofOfWork.LeadingZeroBitsBound | include/proof.h:17-28 | at least d leading zero bits if and only if the big-endian value is below 2^(bits - d) |
| Mining.NostrEventRecord.AddTag | gnostr.c:431-447 | adds a tag if there are fewer than 32 |
| Mining.NostrEventRecord.EnsureNonceTag | gnostr.c:620-640 | finds the first nonce tag of two elements, or else adds one of three |
| Mining.NostrEventRecord.GenerateEventId | gnostr.c:349-365 | the id is the hash of the serialisation, if that is shorter than the buffer |
| Mining.NostrEventRecord.MineEvent | gnostr.c:642-670 | after any number of tries, on any event: it fails the assertion exactly for a short nonce tag, goes on trying exactly while no nonce tried so far ends it, and otherwise stops at the first one that does; when mined, the id is the hash of the event as left, with enough leading zero bits and below the bound, and nothing but the nonce tag has changed |
| Base64.RoundTrip | base64.c:47-204 | decoding undoes encoding, for every byte string and every alphabet of 64 characters with A and without = |
| Base64.RoundTripIff | base64.c:47-204 | and exactly for these alphabets |
| Base64.GroupsAreEncoded | base64.c:63-86 | every three bytes, or what is left of them, are written six bits at a time, RFC 4648 section 4 |
| Base64.AlphabetIs | base64.c:213-213 | the alphabet of RFC 4648 |
| Base64.LengthIs | base64.c:58-61 | the encoded length is four for every three bytes begun |
| Base64.PaddingIsLast | base64.c:76-86 | = occurs as the last zero to two characters and nowhere else |
| Base64.DecodedFits | base64.c:116-119 | what is decoded fits the decoded length |
| Base64.Maps.constructor | base64.c:47-56 | the maps hold the alphabet and the place of each of its characters |
| Base64.EncodeTriplet | base64.c:63-74 | writes four characters in place |
| Base64.EncodeTail | base64.c:76-86 | writes the padded last four characters |
| Base64.EncodeUsingMaps | base64.c:88-114 | fails if and only if the room is too small; else writes the encoding and clears the rest |
| Base64.DecodeQuartet | base64.c:121-143 | fails if and only if a character is not in the alphabet; else writes three bytes |
| Base64.DecodeTail | base64.c:146-173 | decodes the last, perhaps padded, characters |
| Base64.DecodeUsingMaps | base64.c:175-204 | decodes the whole, or fails exactly when the room is too small or the text malformed |
| EncryptedMessage.PaddingRoundTrip | gnostr.c:586-603 | taking off the padding restores the text |
| EncryptedMessage.PaddingIs | gnostr.c:586-603 | one to sixteen bytes are added, each of which says how many, up to a whole number of blocks |
| EncryptedMessage.ContentIs | gnostr.c:706-731 | the ciphertext in base 64, ?iv=, and the IV in base 64 |
| EncryptedMessage.RoomForPadding | gnostr.c:683-683 | the room asked for holds the padding if and only if the length modulo 16 is at least 8 |
| EncryptedMessage.AesEncrypt | gnostr.c:586-613 | pads and encrypts in the buffer, given the room, and touches nothing beyond |
| EncryptedMessage.OutputSuffices | gnostr.c:672-677 | the output buffer has room for everything written, for every length |
| EncryptedMessage.WriteContent | gnostr.c:724-745 | the encoded text, ?iv=, the encoded IV and a zero byte, one after the other |
| EncryptedMessage.MakeEncryptedDm | gnostr.c:672-761 | the event gets the content and the tag, and fails exactly for a full list of tags, whenever the buffer of line 683 holds the padding, which is exactly when the length modulo 16 is at least 8 |
| EncryptedMessage.KeyDeterminesSchedule | aes.c:146-217 | the key determines the round keys |
| EncryptedMessage.EndToEnd | gnostr.c:586-761 | a receiver with the same key gets the text back, for every length, key and IV |
| ToBase.MyToBase | gnostr.c:46-61 | writes the numeral at the end of the 33-byte buffer and never gets below its start |
| ToBase.NumeralStandsFor | gnostr.c:46-61 | the numeral stands for the number, without leading zeros |
| ToBase.DigitIs | gnostr.c:53-53 | the digits by code |
| ToBase.NumeralLength | gnostr.c:43-43 | a number below 2^k has at most k digits in any base |

## Left out

- Sockets, asio scheduling, timers, TLS, the text of the handshake and its SHA-1 key: library behaviour. The model has the bytes, the buffers and the atomic steps.
- secp256k1, random numbers, clocks, signing and argument parsing: the shared secret, IVs, masks, keys and times are arbitrary inputs.
- `template/db.js`, `template/bee.js` and the filters of `template/nostr_events.js`: a query returns any list of events, and matching a filter is any predicate.
- Handlers of the swarm that throw, and `await update()` after the broadcast, which changes nothing in the model.
- Copies of the same algorithms under `src/nostril` and `devtools`, the relay, the configurator and the user interfaces: plumbing or the same claims again.
- ScopeRunner: a state machine over atomic operations and not a class, because its loops interleave; overflow of the `long` counter is not modelled.
- SendQueue: message contents, which the queue does not look at; `closed` is tested and set by one caller at a time, so nothing is claimed of concurrent calls of send_close.
- WsServer.Connection.ReadMessageContent: a length of 2^64 - 4 or more that gets past the size check, because the limit is as high or the sum with the fragments held wraps around, ends the model (`Beyond`), since 4 + length wraps and the code then unmasks more bytes than any stream has. `WsStream.BeyondIff` says when.
- WsConnection: read errors other than missing bytes; a handler on_message that is not set.
- JsMin.Minifier.JsMin: which slashes start a regular expression is decided by the character in hand, as in the code, and not by the grammar of JavaScript; the texts of the error messages and the comments written for command line arguments.
- AesCtr.CtrXcryptBuffer: the mode is off by default (`CTR` is 0 in `include/aes.h`).
- Sha256.Context.Done: the build that delegates to another library, the context checks and the little- and big-endian helpers.
- NostrEvent.CommitmentInjective: events with explicit tags, whose text is copied as it is; that the text is valid JSON, since other control characters are written raw.
- Mining.NostrEventRecord.MineEvent: whether a good nonce exists. The loop has no bound of its own, so what it has done after any given number of tries is stated.
- EncryptedMessage.MakeEncryptedDm: a text whose length modulo 16 is below 8 ends the model (`Beyond`), since `encbuf` is then smaller than the padded text. The failures of the foreign calls.
- EncryptedMessage.Received: the receiver is not in these files; it splits at the first `?iv=`, decodes both parts, decrypts and removes the padding.
