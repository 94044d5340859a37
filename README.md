# Rock-paper-scissors card duel servers: a verified model

This project models the server side of a two-player networked
rock-paper-scissors game in Dafny. The repository contains two servers.

- `server.py`, the card duel.
  - Two clients connect and get identities 0 and 1. Each sends `ready`, with an optional name.
  - When both are ready, each player is dealt three distinct cards from a catalog of nine (three ranks × three effects).
  - In every round each player picks one card. The loser of the rock-paper-scissors comparison takes 10 damage, or 20 against a `power_attack` card. A round winner whose opponent played a `counter_damage_5` card takes 5 back.
  - Health is clamped at 0, and the game ends when a player reaches 0. `insta_win` ends the game at once, in the requester's favour or as a draw.
  - Messages are pickled dictionaries. Each is sent behind a 10-byte header holding the payload length in decimal, left-justified and padded with spaces.
- `PROGJARiz/server.py`, an earlier score-keeping version.
  - Plain rock-paper-scissors rounds, with one point per round won.
  - JSON messages separated by line breaks.
  - A ready count, and a full reset whenever a player disconnects.

The model has five modules.

- `Options` (options.dfy): the `Option` type.
- `Rps` (rps.dfy): the shared rule table `RPS_RULES` and an independent statement of the textbook relation, proved to agree with it.
- `Framing` (framing.dfy): the length header, Python's `int()` as the server applies it to the header bytes, and the pure decoding specification `Deframe`.
  - `FrameDecoder` is the receive loop's state (`full_msg`, `new_msg`, `msg_len`) as a class. It is proved to emit exactly what `Deframe` says, however the bytes are cut into reads.
- `CardDuel` (duel.dfy): the card duel's state and handlers.
  - Round resolution is the pure function `Resolve`.
  - The server state (`player_data`, `clients`, `game_started`) is the class `DuelServer`. Its handlers keep the state invariants and are specified against `Resolve`.
- `ScoreGame` (score_game.dfy): the score-keeping server.
  - Message handling is the pure transition `Step` and its fold `Run`.
  - The state is the class `ScoreServer`, whose handlers are specified against `Step`.
  - Line splitting is specified by its inverse, joining.

The model assumes that each handler runs as one atomic step. The sources do not guarantee this: the score-keeping server has no lock at all, and the card duel's lock covers only parts of its handlers.
Sockets, threads, sleeps and broadcasts are not modelled. A received chunk or decoded message is a parameter. Random dealing is a nondeterministic choice of a valid hand.

## Model

| member | source | states |
|---|---|---|
| Rps.Beaten | server.py:11 | `RPS_RULES.get(a, [])`: each known rank beats exactly one other rank, and an unknown value beats nothing |
| Rps.BeatenIsDefeats | PROGJARiz/server.py:13-17 | the rule table is exactly the textbook relation (Rock beats Scissors, Paper beats Rock, Scissors beats Paper) |
| Rps.DefeatsIsTournament | PROGJARiz/server.py:13-17 | no rank beats itself; of two distinct ranks exactly one beats the other |
| Rps.EachRankBeatsExactlyOne | PROGJARiz/server.py:13-17 | every rank beats exactly one rank and is beaten by exactly one |
| Framing.Decimal | server.py:43 | `str(n)`: at least one byte, all of them decimal digits |
| Framing.EncodeHeader | server.py:43 | a payload shorter than 10^10 bytes gets a header of exactly 10 bytes that reads back as its length; a longer payload gets a header longer than 10 bytes |
| Framing.DecimalFits | server.py:43 | a number below 10^k has at most k decimal digits, so padding never truncates it |
| Framing.DecimalOverflows | server.py:43 | a number of at least 10^k has more than k digits, so the left-justified format overflows the header |
| Framing.ScanDecimal | server.py:196 | `int()` reads `str(n)` back as n |
| Framing.ParseInt | server.py:196 | Python's `int()` on the header bytes: any byte other than whitespace, a sign, a digit or an underscore makes it fail, and it never succeeds without a digit |
| Framing.ParseIntAccepts | server.py:196 | `int()` accepts surrounding whitespace, a `+` or `-` sign and a single underscore between digits |
| Framing.ParseIntRejects | server.py:196 | `int()` rejects a doubled, leading or trailing underscore, a space between digits and blank text |
| Framing.HeaderParses | server.py:196 | `int()` of the space-padded decimal header is the encoded length |
| Framing.Deframe | server.py:192-200 | the decoding of a buffer: each frame is exactly the body that follows a header announcing its length, right after the frames before it; headers, frames and the undecoded end add up to the buffer; that end is a suffix of the buffer, starting with a bad header if decoding failed and holding no complete frame otherwise |
| Framing.DeframeFrames | server.py:194-202 | for any way of reading headers, the i-th decoded frame sits after the earlier frames and their headers, behind a header that announces its length |
| Framing.DeframeRest | server.py:192-200 | for any way of reading headers, what decoding leaves is a suffix of the buffer |
| Framing.DeframeStops | server.py:192-200 | decoding stops only at a bad header, which it reports as a failure, or at an incomplete frame |
| Framing.DeframeSize | server.py:192-200 | decoding loses no byte and invents none: headers, frames and rest add up to the buffer |
| Framing.DeframeAppend | server.py:187-191 | decoding a stream continues where decoding its prefix stopped; after a bad header nothing more is decoded |
| Framing.DeframeEncoded | server.py:39-44 | round trip: decoding encoded messages followed by an incomplete frame gives exactly those messages and keeps the incomplete bytes |
| Framing.PrefixOfFrameIsIncomplete | server.py:192-200 | a message cut off anywhere, in its header or its body, is not yet a complete frame |
| Framing.FrameDecoder.constructor | server.py:186 | a connection starts with an empty buffer, waiting for a header |
| Framing.FrameDecoder.Feed | server.py:191-260 | after one read the decoder emits exactly the frames `Deframe` finds in the buffer plus the chunk, stops on a bad header, and otherwise keeps exactly the undecoded rest |
| Framing.FrameDecoder.Receive | server.py:187-191 | over all reads up to the peer closing, the frames emitted are those of `Deframe` of all bytes received |
| Framing.DecodeConnection | server.py:181-260 | encoded messages, split into reads in any way, arrive as exactly those messages, in order, with no failure |
| CardDuel.RoundWinner | server.py:72-74 | -1 exactly for equal ranks, 0 exactly when player 0's rank beats player 1's, and for known ranks 1 exactly when player 1's rank wins |
| CardDuel.Resolve | server.py:63-117 | a tie deals no damage; the loser takes 20 after a power attack and 10 otherwise; the winner takes 5 from a counter card, and a round announcement reports exactly these two figures; health is clamped at 0 and never rises; the game is over exactly when someone is at 0, with the message naming the survivor or a draw |
| CardDuel.ForcedRoundEndsGame | server.py:247-255 | with the opponent at 0 health, the round always ends the game, the opponent stays at 0, and the requester wins or both are knocked out |
| CardDuel.LowestFreeId | server.py:278-279 | the identity is 0 exactly when 0 is free, and with fewer than two identities in use it is never one already in use |
| CardDuel.SmallRegistry | server.py:277-279 | fewer than two registered connections use fewer than two identities |
| CardDuel.DuelServer.constructor | server.py:30-35 | both players start as "Player i", not ready, at 100 health, without choice or hand; no clients; no game |
| CardDuel.DuelServer.DealCards | server.py:58-61 | each player gets a hand of three distinct catalog cards, and nothing else changes |
| CardDuel.DuelServer.Accept | server.py:275-289 | with fewer than two clients, the connection is registered with the lowest free identity, whose ready flag, choice and name are reset (health and hand kept); otherwise it is turned away with nothing changed; while the lock is held for ever, nobody is admitted and nothing changes |
| CardDuel.DuelServer.Disconnect | server.py:157-178 | corrected: a registered connection is removed, the game stops and both players are reset, and the server never hangs; an unknown connection changes nothing |
| CardDuel.DuelServer.DisconnectAsWritten | server.py:157-178 | as written: the same reset, after which the handler waits for ever holding the clients lock |
| CardDuel.DeadlockAfterDisconnect | server.py:275-289 | as written: after two players join and one leaves, the next connection is never admitted and the remaining player's `ready` never starts a game |
| CardDuel.RejoinAfterDisconnect | server.py:275-289 | corrected: after the same disconnect a new client gets the free identity 1, and two `ready` messages start a new game |
| CardDuel.DuelServer.Ready | server.py:205-234 | the name is replaced only by a non-empty one and the player is ready; the game starts exactly when two clients are registered, both are ready and no handler holds the lock for ever, which clears both ready flags and deals new hands |
| CardDuel.DuelServer.ProcessRoundEnd | server.py:63-155 | nothing happens unless both choices are set; otherwise the result is `Resolve` of the healths and cards, and the state is reset on game over or has new health, cleared choices and new hands |
| CardDuel.DuelServer.Choice | server.py:236-245 | a choice counts only during a game and only as the player's first this round; the second choice of a round resolves it by `Resolve` |
| CardDuel.DuelServer.InstaWin | server.py:247-255 | during a game the opponent drops to 0, missing choices become Rock (requester) and Scissors (opponent), and the round resolves into game over won by the requester or drawn, after which the game is reset |
| ScoreGame.DetermineWinner | PROGJARiz/server.py:47-66 | 0 exactly when the first choice beats the second, 1 exactly when the second beats the first, and -1 exactly for equal or unknown choices |
| ScoreGame.WinnerIsAntisymmetric | PROGJARiz/server.py:54-62 | swapping the choices turns a 0 into a 1 and keeps a tie a tie |
| ScoreGame.Score.Inc | PROGJARiz/server.py:129 | one player's score goes up by exactly one and the other's is unchanged |
| ScoreGame.Step | PROGJARiz/server.py:112-171 | a choice counts only during a game and once per round; a choice outside 0..2 is recorded without resolving anything; a valid choice that completes the pair always resolves the round, giving the winner exactly one point (none on a tie) and clearing the choices; scores change only then; `ready` counts only before the game, which starts exactly at the second; `next_round` and other messages change nothing |
| ScoreGame.StepKeepsInv | PROGJARiz/server.py:149-160 | the game is started exactly when the ready count is 2, and no choice is held outside a game |
| ScoreGame.Run | PROGJARiz/server.py:104-108 | messages are handled one at a time in arrival order; before the game starts, a batch without `ready` changes nothing |
| ScoreGame.RunKeepsInv | PROGJARiz/server.py:104-171 | the same holds after any sequence of messages |
| ScoreGame.RunScoresGrow | PROGJARiz/server.py:126-129 | between disconnects no score decreases, and all scores together grow by at most one per message |
| ScoreGame.OnePlayerCanStartGame | PROGJARiz/server.py:149-154 | the ready count counts messages: one player sending `ready` twice starts the game |
| ScoreGame.StalledRoundStaysStalled | PROGJARiz/server.py:112-118 | a game holding two unresolved choices never changes again through messages |
| ScoreGame.InvalidSecondChoiceStalls | PROGJARiz/server.py:113-118 | a second choice outside 0..2 is recorded without resolving the round, and the game then stays stalled |
| ScoreGame.StepValidated | PROGJARiz/server.py:112-147 | an out-of-range choice is ignored; any other message is handled as before |
| ScoreGame.ValidatedRoundsResolve | PROGJARiz/server.py:118-142 | with validation, the second valid choice of a round always resolves it |
| ScoreGame.ValidatedStepKeepsHealthy | PROGJARiz/server.py:112-147 | with validation, held choices are always valid and a round never stays with both choices unresolved |
| ScoreGame.StripLeft | PROGJARiz/server.py:103 | the result is a suffix of the text that does not start with white space, and everything dropped is white space |
| ScoreGame.StripRight | PROGJARiz/server.py:103 | the result is a prefix of the text that does not end with white space, and everything dropped is white space |
| ScoreGame.Strip | PROGJARiz/server.py:103 | `strip()` gives a slice of the text with only white space before and after it, and that neither starts nor ends with white space |
| ScoreGame.SplitLines | PROGJARiz/server.py:103 | `split('\n')` gives at least one piece, no piece holds a line break, and joining the pieces with line breaks gives the text back |
| ScoreGame.SplitJoin | PROGJARiz/server.py:103 | splitting undoes joining for pieces without line breaks |
| ScoreGame.NonEmpty | PROGJARiz/server.py:105-106 | the pieces kept are all non-empty, are taken from the input, and are no more than the input |
| ScoreGame.NonEmptyAppend | PROGJARiz/server.py:104-106 | skipping empty pieces works piece by piece: it distributes over concatenation |
| ScoreGame.NonEmptySingle | PROGJARiz/server.py:105-106 | a single piece is kept exactly when it is not empty |
| ScoreGame.Pieces | PROGJARiz/server.py:103-106 | the pieces of a chunk are non-empty and contain no line break |
| ScoreGame.BlankLineSkipped | PROGJARiz/server.py:103-106 | the chunk `"a\n\nb\n"` yields the pieces `"a"` and `"b"`: the empty line is skipped |
| ScoreGame.StripOfLines | PROGJARiz/server.py:103 | stripping a chunk of whole messages removes only the final line break |
| ScoreGame.PiecesOfLines | PROGJARiz/server.py:103-106 | a chunk of whole newline-terminated messages yields exactly those messages, in order |
| ScoreGame.Decoded | PROGJARiz/server.py:104-108 | every piece becomes one message from the sending player, in order |
| ScoreGame.RunAppend | PROGJARiz/server.py:104-108 | handling two batches one after the other is handling their concatenation |
| ScoreGame.ScoreServer.constructor | PROGJARiz/server.py:25-29 | no players, no choices, scores 0 and 0, ready count 0, game not started, next identity 0 |
| ScoreGame.ScoreServer.Accept | PROGJARiz/server.py:212-223 | with fewer than two players the connection is appended with the current next identity, which then alternates; otherwise nothing changes; game state is untouched |
| ScoreGame.ScoreServer.HandleMessage | PROGJARiz/server.py:109-171 | the new game state and the broadcast are those of `Step`; connections are untouched |
| ScoreGame.ScoreServer.ResetRound | PROGJARiz/server.py:68-71 | choices are emptied and nothing else changes |
| ScoreGame.ScoreServer.HandleChunk | PROGJARiz/server.py:96-108 | the new game state is `Run` over the chunk's non-empty lines, decoded in order |
| ScoreGame.ScoreServer.Disconnect | PROGJARiz/server.py:184-193 | exactly that connection leaves the list, and scores, choices, ready count and game flag are back to their initial values |
| ScoreGame.DuplicateIdScenario | PROGJARiz/server.py:212-223 | after A joins, B joins and B leaves, the next client gets identity 0, which A still holds |

## Left out

- Sockets, threads and `time.sleep` are not modelled. Atomicity of each handler is an assumption of the model, not something the sources guarantee. The sleeps in `process_round_end` and `ready` give other messages a window, and that is not modelled either.
- Interleaving in the score-keeping server: `PROGJARiz/server.py` has no lock. Two choices arriving together can both pass the `len(player_choices) == 2` test (line 118) before either `reset_round` (line 142) runs, so one round can be scored twice. The model handles one message at a time and does not capture this race.
- Interleaving in the card duel: `process_round_end` runs outside `clients_lock` (server.py:245, 255). Concurrent `choice` or `insta_win` messages can therefore interleave with it. Not modelled.
- CardDuel.DuelServer.DisconnectAsWritten: only the one deadlock it leads to is modelled, as a flag that a handler holds the lock for ever.
- Broadcasts and replies (`send_pickled`, `broadcast`, `broadcast_message`) and their wording are not modelled. A round's broadcast is kept as a `RoundResult` or `Event` value. Announcement texts are kept only by kind.
- Pickle and JSON: a payload is an opaque byte string. The decoded message reaches the handlers as a parameter: a `Card`, an optional name, or a `Msg` produced by a `parse` function.
- Malformed messages:
  - A card dictionary missing `rps_value` raises an exception and so disconnects the client in the card duel. This is not modelled: cards are always well formed.
  - A falsy choice such as an empty dictionary is not modelled.
  - In the score game, a choice that is not an integer (a string, `null`, a float) is not modelled. Choices are integers.
- Framing.FrameLength: a negative length header is treated as a protocol error. In the source, negative slice bounds usually make `pickle.loads` fail on unrelated bytes, which ends the connection. A header below -10 counts from the end of the buffer, so the slice can be non-empty and the load is not certain to fail.
- Framing.DeframeEncoded: requires payloads shorter than 10^10 bytes. Longer payloads get a header that does not fit 10 bytes, so the round trip does not hold for them.
- Framing.FrameDecoder.Feed: dispatching each decoded frame to its handler, and an exception during handling ending the connection, are not modelled. The decoder only emits the frames.
- UTF-8 decoding of received chunks in the score game is not modelled: a chunk is text. A chunk that fails to decode ends the connection in the source.
- CardDuel.DuelServer.Ready: follows the code, which does not check `game_started`. A repeated pair of `ready` messages during a game deals new hands again.
- The `CHOICES` name table and the console output are not modelled.
- The pygame clients (`client2.py`, `PROGJARiz/client2.py`, `PROGJARiz/home.py`, `PROGJARiz/loading_screen.py`) are not part of this model.

## Findings

| source | as written | input that shows it | evidently intended | confidence | as-written member | corrected member |
|---|---|---|---|---|---|---|
| PROGJARiz/server.py:212-223 | identities alternate 0, 1, 0, … on every accepted connection, regardless of which identity left | A connects (0), B connects (1), B disconnects, C connects and gets 0, which A still holds | give the lowest identity not in use, as the later server does | high, not executed | ScoreGame.DuplicateIdScenario | CardDuel.LowestFreeId |
| PROGJARiz/server.py:113-118 | an out-of-range choice is stored before the lookup of its name raises, so the round is never resolved | during a game player 0 chooses 0, then player 1 sends choice 7: both choices are held, no further choice or `ready` is accepted, and only a disconnect ends the stall | ignore a choice outside 0..2, as a repeated choice is ignored | medium, not executed | ScoreGame.InvalidSecondChoiceStalls | ScoreGame.StepValidated |
| server.py:157-178 | `handle_disconnect` calls `broadcast` while holding `clients_lock`. `broadcast` takes the same plain, non-reentrant lock (line 53), so the handler waits for ever holding it | two clients connect and one closes its socket: later connections are never admitted (line 276), and the remaining player's `ready` hangs in its broadcast (line 212) | broadcast after releasing the lock | high, not executed | CardDuel.DeadlockAfterDisconnect | CardDuel.RejoinAfterDisconnect |
