# Verified model of the BF2:MC master server

The repository serves the game *Battlefield 2: Modern Combat*: it lists game servers, keeps players' sessions,
collects end-of-game reports and rates players and clans. This project models the parts of it that compute, and
proves what they are for.

| file | what it models |
|---|---|
| `Wrappers.dfy` | results that may be missing |
| `Bytes.dfy` | bytes, counters, wrap-around sums, bitwise operations on unbounded numbers, concatenation |
| `Numbers.dfy` | products and floors of reals |
| `GoaCipher.dfy` | the GOA stream cipher: one step, whole strings, the state rewritten in place |
| `GoaKeySetup.dfy` | key setup of the cipher: the bounded rejection loop, the mask, the deal |
| `BrowsingChallenge.dfy` | key derivation from two challenges, the header, sealing and opening a response |
| `BrowsingRecords.dfy` | length-prefixed requests, self-delimiting server records, the whole server list |
| `GameSpyText.dfy` | the backslash protocol: printing, parsing, cutting a stream into messages |
| `StatsTransport.dfy` | the keyed transport of the game-statistics server |
| `GameReport.dfy` | the end-of-game report and its grouping by player index |
| `Heartbeat.dfy` | the heartbeat of a game server |
| `UrlCodec.dfy` | percent-encoding |
| `PlayerStats.dfy` | counters, medals, rank and points per hour of a player |
| `ClanRating.dfy` | the rating of clans |
| `Sessions.dfy` | the session table of the messaging server |

`dafny verify dfyconfig.toml` checks all of it.

## How the model is built

Code that changes things step by step stays imperative: the cipher state is a class around a 256-byte array, a
player's statistics, a clan, a client and the server are classes with the source's fields, and the parsers and
printers are methods with the source's loops. Each method is proved equal to a specification function of its inputs
or of the old state, and the lemmas about those functions carry the results. The readers and writers the repository
does not have (the game's side of the server list, a game server's side of the heartbeat and of the report) are written
here as independent references that the repository's side is proved against.

Bytes are integers from 0 to 255 and unsigned counters integers modulo 2^32, with every wrap-around written out.
`double` is modelled as an exact real. `pow(10, d / 1000)` is modelled as any function of the difference `d` that is
positive, never falls, and takes reciprocal values at `d` and `-d`; `ClanRating.PowerExists` shows that there is one.
Text is bytes in the wire formats and characters below 256 in the URL coder.

## What the proofs found

* A stream of text messages survives cutting and parsing exactly when every message is free of backslashes and its last
  value, and no earlier one, ends in "final"; the last value need not be "final" itself (`GameSpyText.StreamRoundTrip`).
* A verified server with an empty flag byte ends the server list early for a reader that stops at the first empty flag.
  Such a reader gets exactly the servers before it and does not find the closing bytes where they should be
  (`BrowsingRecords.ReadUpToEmptyFlag`, `BrowsingRecords.ServerListDelivered`). A reader that takes the end from the
  length of the message is not misled (`BrowsingRecords.RecordsReadToEnd`).
* A client that logs in twice to the same profile disconnects itself: after the second login the profile is not found
  any more (`Sessions.FoundAfterLogin`; `Sessions.SecondLoginDisconnects` is a run that gets there).
* Of two match scores the higher never gives fewer points per hour, in whatever state of the player, exactly when neither
  is -10000, which marks a name change (`PlayerStats.PphOrder`). Where all values stay in the range of their types the
  order also holds between a name change and a score at the very end of its range; `PlayerStats.PphOrderInRange` and
  `PlayerStats.RankOrder` give the exact bounds for points per hour and for ranks.
* A drawn match counts 1.0 for both clans, as a win does, where an Elo rating usually counts one half; so a draw adds 24
  or 25 points to the clans' total (`ClanRating.GainsTogether`).
* Percent-decoding undoes percent-encoding exactly on bytes 1 to 127: a NUL ends the text, and a byte from 0x80 up is
  printed as a 32-bit negative number (`UrlCodec.DecodeEncode`).
* Percent-decoding uses a variable before it was ever set exactly when nothing can be read after the first percent sign
  (`UrlCodec.DecodedUnlessUnset`); after a later sign of this kind the variable still holds the last value read.
* The client's challenge counts from its second byte on: the first step of the key derivation overwrites the first byte
  (`BrowsingChallenge.FirstByteIgnored`).
* Under the secret that the server uses, and against the zeros that it sends, the fifth byte of the client's challenge does
  not count either, and two of the eight key bytes are always 0 (`BrowsingChallenge.ServerKeyOfZeros`).
* A match of more than five hours takes the points per hour beyond its own rate (`PlayerStats.MeanOrder`).
* The server and the decoder in `src/browsing/test.cpp` carry different secrets. The lemmas hold for every secret, and
  for every server challenge although the server always sends zeros.

## Model

| member | source | states |
|---|---|---|
| GoaCipher.FourWritesAreACycle | src/browsing/sb_crypt.cpp:150-154 | The five assignments that pass a card around amount to three exchanges, whichever of the four places coincide |
| GoaCipher.CardsMove | src/browsing/sb_crypt.cpp:149-155 | Where each card and each register goes: with the four places apart each card moves one place on, all others stay, and rotor, ratchet and avalanche are sums modulo 256 |
| GoaCipher.MaskOnDescending | src/browsing/sb_crypt.cpp:165-167 | On a deck in descending order the mask in plain arithmetic of the registers |
| GoaCipher.StepRegisters | src/browsing/sb_crypt.cpp:165-169 | In both directions the plain byte and the cipher byte go to their registers |
| GoaCipher.EachCardOnce | src/browsing/sb_crypt.cpp:106-107 | In a permutation every byte lies at exactly one place |
| GoaCipher.ShuffleKeepsPermutation | src/browsing/sb_crypt.cpp:149-155 | One shuffle neither loses nor duplicates a card |
| GoaCipher.RunKeepsPermutation | src/browsing/sb_crypt.cpp:172-203 | The deck stays a permutation of 0..255 through every string, enciphered or deciphered |
| GoaCipher.MaskInverse | src/browsing/sb_crypt.cpp:165-167 | Combining a byte twice with the same two cards gives the byte back |
| GoaCipher.StepInverse | src/browsing/sb_crypt.cpp:205-232 | From equal states, the opposite function returns the byte and both states move alike, cards and all five registers |
| GoaCipher.RunInverse | src/browsing/sb_crypt.cpp:172-274 | From equal states, decrypting what was encrypted, or encrypting what was decrypted, gives the string back and leaves equal states, for strings of every length |
| GoaCipher.RunBijective | src/browsing/sb_crypt.cpp:172-274 | Every state gives a bijection on the strings of each length |
| GoaCipher.RunConcat | src/browsing/sb_crypt.cpp:182-196 | A string may be processed in pieces; output prefixes depend on input prefixes only |
| GoaCipher.PassCards | src/browsing/sb_crypt.cpp:150-154 | The card assignments in place leave the deck of three exchanges, with the held card at the last place |
| GoaCipher.GoaState.EncryptByte | src/browsing/sb_crypt.cpp:138-170 | New state and output byte are those of the enciphering step |
| GoaCipher.GoaState.DecryptByte | src/browsing/sb_crypt.cpp:205-232 | New state and output byte are those of the deciphering step |
| GoaCipher.GoaState.Encrypt | src/browsing/sb_crypt.cpp:172-203 | With registers cached in locals and the held card used in place of a card read back, the loop does what folding the byte function does, to the state and to that part of the buffer only |
| GoaCipher.GoaState.Decrypt | src/browsing/sb_crypt.cpp:234-274 | The same for deciphering |
| GoaKeySetup.NextFeed | src/browsing/sb_crypt.cpp:28-33 | The place in the key stays below the key size |
| GoaKeySetup.NextFeedSums | src/browsing/sb_crypt.cpp:28-33 | The next sum, with the key size added each time the key starts anew |
| GoaKeySetup.CandidateIsRemainder | src/browsing/sb_crypt.cpp:34 | A candidate is the remainder of the sum modulo the power of two above the mask |
| GoaKeySetup.FirstCandidateTaken | src/browsing/sb_crypt.cpp:34-39 | A candidate within the limit among the first eleven is taken as it is, the twelfth is reduced in any case |
| GoaKeySetup.Tries | src/browsing/sb_crypt.cpp:25-38 | The rejection loop ends at the first candidate not above the limit and makes at most twelve tries |
| GoaKeySetup.DrawPlace | src/browsing/sb_crypt.cpp:23-39 | The place drawn is never above the limit |
| GoaKeySetup.Keyrand | src/browsing/sb_crypt.cpp:12-40 | The do-while loop ends and returns the place, the sum and the key position that the bounded search describes; a limit of 0 changes nothing |
| GoaKeySetup.MaskFor | src/browsing/sb_crypt.cpp:113-120 | The mask m of a place i satisfies m / 2 < i <= m |
| GoaKeySetup.MaskIsOneBelowPower | src/browsing/sb_crypt.cpp:113-120 | The mask is one below a power of two |
| GoaKeySetup.MaskStep | src/browsing/sb_crypt.cpp:119-120 | Halving the mask exactly when i & (i - 1) is 0 keeps it the mask of the next place |
| GoaKeySetup.DealKeepsCards | src/browsing/sb_crypt.cpp:115-121 | The deal loses no card and never touches a place above i again |
| GoaKeySetup.DealtCard | src/browsing/sb_crypt.cpp:117-118 | The place at hand gets the card of the place drawn, for good |
| GoaKeySetup.TopCard | src/browsing/sb_crypt.cpp:107-121 | After key setup the first byte of the key lies at place 255, one more for a key of one byte |
| GoaKeySetup.FirstByteUnkeyed | src/browsing/sb_crypt.cpp:63-170 | From the unkeyed state every first byte is enciphered with 0xef |
| GoaKeySetup.KeyedStateIsPermutation | src/browsing/sb_crypt.cpp:84-136 | Key setup yields a permutation for every key, the empty one included |
| GoaKeySetup.CipherKeepsPermutation | src/browsing/sb_crypt.cpp:84-274 | From key setup on, through any string, the deck is a permutation |
| GoaKeySetup.HashInit | src/browsing/sb_crypt.cpp:63-82 | The unkeyed state: fixed registers and the cards in inverse order |
| GoaKeySetup.DealFrom | src/browsing/sb_crypt.cpp:115-121 | The loop with its running mask performs the deal, whose mask is a function of the place |
| GoaKeySetup.DealCards | src/browsing/sb_crypt.cpp:110-121 | The same from place 255 and mask 255 |
| GoaKeySetup.CryptInit | src/browsing/sb_crypt.cpp:84-136 | Cards after key setup, and which card each of the five registers takes |
| BrowsingChallenge.DerivationIndex | src/browsing/client.cpp:644 | The index of every derivation step stays below the length of the key |
| BrowsingChallenge.ServerKey | src/browsing/client.cpp:641-648 | Under the server's own secret, the whole derived key, byte by byte, for every client and every server challenge |
| BrowsingChallenge.ServerKeyOfZeros | src/browsing/client.cpp:627-648 | Against the challenge of zeros that is sent, the first and the fifth byte of the client's challenge never count and two key bytes are always 0 |
| BrowsingChallenge.ServerSends | src/browsing/client.cpp:613-653 | What the server in fact sends: the header, and the payload enciphered under that key |
| BrowsingChallenge.HeaderLengths | src/browsing/client.cpp:620-633 | The two length bytes decode to 10 and 25; ten bytes 0xff and the server challenge follow them |
| BrowsingChallenge.OpenedSealed | src/browsing/client.cpp:613-653 | A receiver that takes the server challenge from the header and derives the key alike recovers exactly the payload, for every client challenge of at least 8 bytes, server challenge, secret and payload |
| BrowsingChallenge.SealedInjective | src/browsing/client.cpp:613-653 | Distinct payloads are sent as distinct messages |
| BrowsingChallenge.FirstByteIgnored | src/browsing/client.cpp:642-648 | The first step overwrites the first key byte, so client challenges that agree from the second byte on derive the same key, whatever the secret |
| BrowsingChallenge.OpenedWithoutFirstByte | src/browsing/client.cpp:613-653 | Hence what a receiver reads does not depend on the first byte of its challenge |
| BrowsingChallenge.Derive | src/browsing/client.cpp:641-648 | The 25 in-place steps leave the derived key in the buffer |
| BrowsingChallenge.WriteHeader | src/browsing/client.cpp:620-633 | The clear part in place, leaving the payload alone |
| BrowsingChallenge.Encrypt | src/browsing/client.cpp:613-653 | The response in place becomes header and sealed payload |
| BrowsingChallenge.Decrypt | src/browsing/test.cpp:1079-1144 | The decoder leaves the header alone and turns the rest into what a receiver opens |
| BrowsingRecords.BufferToRequests | src/browsing/client.cpp:538-558 | The splitter ends on every buffer and returns the requests at its front |
| BrowsingRecords.RequestsArePrefix | src/browsing/client.cpp:538-558 | The requests concatenate to a prefix and the splitter stops only where no further request can be read |
| BrowsingRecords.StuckWithoutSize | src/browsing/client.cpp:543-552 | The splitter stops where the big-endian size is not there, is 0 or is more than is left, and only there |
| BrowsingRecords.OneRequest | src/browsing/client.cpp:545-554 | A message behind its size, high byte first, is one request |
| BrowsingRecords.RequestsRecovered | src/browsing/client.cpp:538-558 | Frames that carry their own big-endian size are recovered exactly, whatever incomplete piece follows |
| BrowsingRecords.InsertGameServerFlagIpPort | src/browsing/client.cpp:572-611 | Appends exactly one record: flag, address and the fields of its flag |
| BrowsingRecords.FlagBits | src/browsing/constants.h:16-23 | Each flag asks for one bit of the flag byte |
| BrowsingRecords.RecordLayouts | src/browsing/client.cpp:285-293 | The record of the documented flag 0xbb, and of flags that ask for some fields or none, for every address and port |
| BrowsingRecords.RecordReadBack | src/browsing/client.cpp:572-611 | Reading fields in flag order returns exactly the flag, address and present fields and leaves what follows alone |
| BrowsingRecords.ReadUpToEmptyFlag | src/browsing/client.cpp:254-266 | A reader that stops at the first empty flag gets, from any list, exactly the servers before it, and what that flag leaves over |
| BrowsingRecords.RecordsReadBack | src/browsing/client.cpp:254-266 | Hence a terminated list is read back exactly if and only if no flag is empty |
| BrowsingRecords.RecordsReadToEnd | src/browsing/client.cpp:572-611 | A reader that reads records to the end gets every list back, whatever the flags |
| BrowsingRecords.SendServerList | src/browsing/client.cpp:240-274 | The assembled message is the sealed list of the verified servers between client information, header items and the closing bytes |
| BrowsingRecords.PayloadBytes | src/browsing/client.cpp:560-570 | The fixed bytes of a list: port 6500 in front, the empty flag and four bytes 0xff behind |
| BrowsingRecords.VerifiedCount | src/browsing/client.cpp:259-260 | Only verified servers are listed, each as often as it came |
| BrowsingRecords.VerifiedConcat | src/browsing/client.cpp:254-263 | And in the order in which they came |
| BrowsingRecords.ServerListDelivered | src/browsing/client.cpp:240-274 | End to end: the receiver of the sealed list reads exactly the verified servers, in order, if none has an empty flag, and otherwise does not find the list closed |
| GameSpyText.Find | src/gamespy.cpp:12 | The first place of the separator, or none at all |
| GameSpyText.RequestToRequests | src/gamespy.cpp:7-24 | The splitting loop returns the requests of the stream |
| GameSpyText.RequestsArePrefix | src/gamespy.cpp:7-24 | On any input the pieces concatenate to a prefix, each ends at its first separator, and the remainder holds none |
| GameSpyText.RequestsUnique | src/gamespy.cpp:7-24 | No other list of such pieces and such a remainder makes up the stream |
| GameSpyText.Request2Parameter | src/gamespy.cpp:26-44 | The loop over the stream parses a message: first character skipped, fields between backslashes, no empty last field |
| GameSpyText.Parameter2Response | src/gamespy.cpp:46-58 | The loop prints the values |
| GameSpyText.ParsePrint | src/gamespy.cpp:26-58 | Printing and parsing is the identity exactly on values without backslashes |
| GameSpyText.PrintParse | src/gamespy.cpp:26-58 | Parsing and printing is the identity exactly on texts that start and end with a backslash |
| GameSpyText.KeepAlive | src/gamestats/client.cpp:377-380 | The message that keeps a connection alive, character by character |
| GameSpyText.CutTooEarly | src/gamespy.cpp:7-24 | A message with an early value that ends in "final" comes back as its front part |
| GameSpyText.CutTooLate | src/gamespy.cpp:7-24 | A message with no value that ends in "final" never comes back as itself |
| GameSpyText.StreamRoundTrip | src/gamespy.cpp:7-58 | Printing, joining, splitting and parsing returns the messages if and only if all are well formed |
| StatsTransport.Encrypt | src/gamestats/client.cpp:417-437 | The body combined with the repeating key, then the trailer |
| StatsTransport.Decrypt | src/gamestats/client.cpp:397-415 | The body combined with the key again, unprintable characters made backslashes, then the trailer |
| StatsTransport.DecryptEncrypt | src/gamestats/client.cpp:397-437 | What comes back for every text of seven characters or more, and that it is the text exactly when the body is printable and the end is the trailer |
| StatsTransport.KeyIsName | src/gamestats/client.cpp:420-425 | A body that repeats "GameSpy3D", at whatever length, travels as nothing but zeros |
| StatsTransport.PrintableRange | src/gamestats/client.cpp:406 | Printable are the characters from the exclamation mark to the tilde |
| StatsTransport.ReceivedIsPortable | src/gamestats/client.cpp:397-415 | Whatever arrives is parsed into printable, backslash-free values of which the last is "final" |
| StatsTransport.TransportRoundTrip | src/gamestats/client.cpp:397-437 | Print, encrypt, decrypt and parse is the identity exactly on such lists |
| GameReport.StoiDecimal | src/gamestats/client.cpp:353 | The number read back from a printed 32-bit integer is that integer |
| GameReport.StoiReads | src/gamestats/client.cpp:353 | A number may carry a sign and stand before anything but a digit; beyond 32 bits it is not read |
| GameReport.StoiSkips | src/gamestats/client.cpp:353 | Spaces in front of a number make no difference |
| GameReport.Numerals | src/gamestats/client.cpp:353 | Numbers are written in tens with the digits 0 to 9 |
| GameReport.GetKeyAndPlayerIndex | src/gamestats/client.cpp:339-361 | Key, index and success, with index -1 where there is no underscore or no readable number |
| GameReport.NameReadBack | src/gamestats/client.cpp:339-361 | The name key_index splits into exactly key and index, even if the key holds underscores |
| GameReport.NamesOfKinds | src/gamestats/client.cpp:339-361 | Names with an index, without a number at their end, and without an underscore |
| GameReport.PlayersStartAtAuth | src/gamestats/client.cpp:234-235 | The players start at "auth_" wherever it stands in a name, and at no name without an underscore |
| GameReport.RunsPartition | src/gamestats/client.cpp:254-300 | On any input every pair goes to exactly one player, in order, and the runs of equal index are maximal |
| GameReport.RunsRecovered | src/gamestats/client.cpp:254-300 | A division into runs is recovered if and only if no run is empty and neighbours differ in index |
| GameReport.ReadGame | src/gamestats/client.cpp:229-247 | The first loop reads the pairs before the first name with "auth_" and stops there |
| GameReport.ReadPlayer | src/gamestats/client.cpp:256-290 | The inner loop reads one maximal run and makes progress |
| GameReport.ReadReport | src/gamestats/client.cpp:229-300 | Parsing ends on every parameter list and yields the game and one player per maximal run |
| GameReport.ReportRoundTrip | src/gamestats/client.cpp:229-300 | A printed report is read back, an odd parameter ignored: the game always, the players if and only if each has a setting and no two neighbours share an index |
| Heartbeat.ReadFront | src/util.cpp:17-33 | A read splits the bytes at the first NUL, or takes all of them |
| Heartbeat.ReadString | src/util.cpp:17-33 | The loop performs such a read at any offset, in or past the buffer |
| Heartbeat.ReadSettings | src/qr/client.cpp:159-172 | The first loop reads keys and values up to an empty key or the end |
| Heartbeat.ReadPlayer | src/qr/client.cpp:188-193 | Six fields after a name |
| Heartbeat.ReadPlayers | src/qr/client.cpp:186-215 | The player loop reads rows up to an empty name or the end |
| Heartbeat.ReadTeam | src/qr/client.cpp:226-227 | Name and score of a team |
| Heartbeat.ReadHeartbeat | src/qr/client.cpp:139-248 | Parsing ends on every buffer with in-range reads and yields what the tables say |
| Heartbeat.SettingsReadBack | src/qr/client.cpp:159-172 | Written settings are read back if no key is empty, and fewer of them otherwise |
| Heartbeat.PlayersReadBack | src/qr/client.cpp:186-215 | Written players are read back if no name is empty, and fewer of them otherwise |
| Heartbeat.HeartbeatRoundTrip | src/qr/client.cpp:139-248 | A written heartbeat is read back, settings, players and both teams, if and only if no key and no name is empty |
| UrlCodec.Encode | src/util.cpp:154-193 | The loop computes the code of a string: unreserved characters kept, others escaped, up to the first NUL |
| UrlCodec.Decode | src/util.cpp:195-224 | The loop decodes plus signs and escapes on every text, a failed read leaving the variable as it was; None where it is used before it was set |
| UrlCodec.DecodedUnlessUnset | src/util.cpp:199-221 | Decoding is undefined if and only if nothing can be read after the first percent sign |
| UrlCodec.WellEscapedDecodes | src/util.cpp:195-224 | It is defined wherever every percent sign is followed by two digits |
| UrlCodec.ShortEscapes | src/util.cpp:216 | What is read when there are no two digits: one digit, perhaps after a space or a sign |
| UrlCodec.DecodedPlain | src/util.cpp:203-213 | A text without a percent sign only has its plus signs turned into spaces |
| UrlCodec.LowerEscapesDecode | src/util.cpp:216-218 | The case of the digits of an escape makes no difference |
| UrlCodec.DigitsInEitherCase | src/util.cpp:216 | The value of each of the sixteen digits in either case |
| UrlCodec.UnreservedCharacters | src/util.cpp:171 | The characters kept are those that section 2.3 of RFC 3986 lists |
| UrlCodec.DecodeEncode | src/util.cpp:154-224 | Every code is well escaped, and decoding gives the string back if and only if it holds only bytes 1 to 127 |
| UrlCodec.EncodedIsCanonical | src/util.cpp:154-193 | The code of such a string holds only unreserved characters and capital %XX triples of characters that need them |
| UrlCodec.EncodeDecode | src/util.cpp:154-224 | Any text at all comes back from decoding and encoding if and only if it is canonical |
| PlayerStats.CountSetBits | src/util.cpp:370-381 | The loop ends and returns the number of one bits |
| PlayerStats.ClearingOneBit | src/util.cpp:376 | n & (n - 1) has exactly one bit less |
| PlayerStats.OnesOfPower | src/util.cpp:370-381 | Zero has no one bit and a power of two has one |
| PlayerStats.TablesRise | src/battlefield.cpp:5-7 | None of the three tables ever falls |
| PlayerStats.RankRows | src/battlefield.cpp:5-7 | The three thresholds of each rank from the second on, in numbers |
| PlayerStats.MeetsLower | src/battlefield/playerstats.cpp:382-388 | Who meets the thresholds of a rank meets those of every lower one, so stopping early is right |
| PlayerStats.RankMonotone | src/battlefield/playerstats.cpp:376-391 | The rank never falls with score, points per hour or medals, and is determined by them |
| PlayerStats.PphOfFirstHour | src/battlefield/playerstats.cpp:403-412 | Below one hour in all a point counts a hundredfold, and a negative total counts nothing |
| PlayerStats.PphToFiveHours | src/battlefield/playerstats.cpp:414-421 | From one hour to five the value is 360000 times the total over the seconds played, rounded down |
| PlayerStats.PphFromFiveHours | src/battlefield/playerstats.cpp:423-443 | From five hours on it is the whole part of a quotient of whole numbers made of the old value, the seconds of the match and its score |
| PlayerStats.PphOfNameChange | src/battlefield/playerstats.cpp:399-401 | The score -10000 leaves the value as it is |
| PlayerStats.PphMonotone | src/battlefield/playerstats.cpp:393-447 | In all three regimes a higher match score never gives fewer points per hour, name changes apart |
| PlayerStats.NameChangeIsNotMonotone | src/battlefield/playerstats.cpp:399-401 | For every pair of scores of which one marks a name change, a state in which the higher gives fewer points per hour, in range wherever there is one |
| PlayerStats.PphOrder | src/battlefield/playerstats.cpp:393-447 | Over all states the higher score never gives fewer points per hour if and only if neither marks a name change |
| PlayerStats.PphOrderInRange | src/battlefield/playerstats.cpp:393-447 | Over the states that stay in range the same, up to the two lowest scores, which a name change may follow |
| PlayerStats.MeanOrder | src/battlefield/playerstats.cpp:423-443 | The rate over five hours lies between the old value and the rate of the match if and only if the match takes at most five hours or its rate is the old value; for a longer match it lies beyond the match's rate |
| PlayerStats.PphBetween | src/battlefield/playerstats.cpp:423-446 | From five hours on and for a match that took time, the new value lies, up to truncation, between the old value and the rate of a match of at most five hours, and on the far side of the rate of a longer one, name changes apart |
| PlayerStats.HigherScoreNotLowerRank | src/battlefield/playerstats.cpp:333-447 | Hence a higher match score never leads to a lower rank |
| PlayerStats.RankOrder | src/battlefield/playerstats.cpp:333-447 | Over the states that stay in range the higher score never leads to a lower rank if and only if neither marks a name change, or the other one is so extreme that fewer than 25 points are left |
| PlayerStats.PlusCounts | src/battlefield/playerstats.cpp:338-363 | Each of the 25 counters grows by what the match counted for it and by nothing else |
| PlayerStats.TallyAfterIsSum | src/battlefield/playerstats.cpp:333-374 | After any run of matches each unsigned counter is its start plus the sum of the match values, modulo 2^32 |
| PlayerStats.UpdateAll | src/battlefield/playerstats.cpp:333-374 | A run of updates whose every step is in range: all 25 unsigned counters and the score rise by the sums of the match values, points per hour and medals are those of the run, vehicles are the sum of their kinds, and the rank is current |
| PlayerStats.TallyAnyOrder | src/battlefield/playerstats.cpp:333-374 | The same matches in another order leave every counter the same |
| PlayerStats.ScoreAnyOrder | src/battlefield/playerstats.cpp:357 | And the score |
| PlayerStats.MedalsAnyOrder | src/battlefield/playerstats.cpp:278-290 | And the number of medals |
| PlayerStats.MedalsAreBest | src/battlefield/playerstats.cpp:278-290 | After any run the player holds the start medals or a known offer, and no known offer has more medals |
| PlayerStats.MedalsChange | src/battlefield/playerstats.cpp:280 | Medals change exactly if the offered ones are known and more |
| PlayerStats.ReportedMedalsAreLowBits | src/battlefield/gamestat.cpp:1023-1027 | The mask keeps the fifteen medal bits and clears all others |
| PlayerStats.MedalsOverReports | src/battlefield/gamestat.cpp:1023-1027 | Over any run of reports medals stay at most 32767, never get fewer, and are as many as the best report has |
| PlayerStats.Stats.CalcRank | src/battlefield/playerstats.cpp:376-391 | The stored rank becomes the highest one, of 1 to 20, whose three thresholds are met |
| PlayerStats.Stats.SetScore | src/battlefield/playerstats.cpp:122-129 | Stores the score and makes the rank current |
| PlayerStats.Stats.SetRank | src/battlefield/playerstats.cpp:131-141 | Takes over a rank of 1 to 20 only |
| PlayerStats.Stats.SetPPH | src/battlefield/playerstats.cpp:149-156 | Stores the points per hour and makes the rank current |
| PlayerStats.Stats.SetMedals | src/battlefield/playerstats.cpp:278-290 | Takes known medals over only if there are more of them, and then makes the rank current |
| PlayerStats.Stats.Load | src/database/player.cpp:333-361 | After loading the rank is current, whatever rank was stored |
| PlayerStats.Stats.CalcNewPPH | src/battlefield/playerstats.cpp:393-447 | Points per hour follow the formula of the regime, and the rank is current unless the name was changed |
| PlayerStats.Stats.AddCounters | src/battlefield/playerstats.cpp:338-371 | All counters take the match over and vehicles are the sum of their five kinds |
| PlayerStats.Stats.Update | src/battlefield/playerstats.cpp:333-374 | One match: every counter, score, points per hour, medals and vehicles, and a current rank afterwards |
| ClanRating.ExpectationsSumToOne | src/battlefield/gamestat.cpp:416-417 | Each expectation lies between 0 and 1 and the two sum to 1 |
| ClanRating.Odds | src/battlefield/gamestat.cpp:416-417 | The two expectations are in the proportion of the power of the score difference, and equal scores expect one half |
| ClanRating.GainExactly | src/battlefield/gamestat.cpp:411-421 | The gain in terms of scores and power: weight times result less expectation, rounded down |
| ClanRating.Weights | src/battlefield/gamestat.cpp:362-409 | The weight of every kind of match, in points |
| ClanRating.GainNumbers | src/battlefield/gamestat.cpp:362-434 | A minor win over a loss gains less than 50 points, a major one less than 100, and a draw gives 24 or 25 to both together |
| ClanRating.GainsTogether | src/battlefield/gamestat.cpp:419-434 | Both gains sum to the weight times one less than both results, or one point less: 0 or -1 for a win and a loss, 24 or 25 for a draw |
| ClanRating.WinAgainstLoss | src/battlefield/gamestat.cpp:419-434 | A win against a loss keeps the clans' total or loses one point, and only a clamped loser can raise it |
| ClanRating.GainBounds | src/battlefield/gamestat.cpp:419-434 | A winner gains between 0 and the weight less 1, a loser loses between 1 and the weight |
| ClanRating.LeaderGainsNoMore | src/battlefield/gamestat.cpp:411-421 | For the same result, a clan that leads by more gains no more |
| ClanRating.PowerExists | src/battlefield/gamestat.cpp:416 | The assumptions about the power of ten can be met |
| ClanRating.Credit | src/battlefield/gamestat.cpp:366-409 | A switch counts exactly one outcome of a known kind and multiplies the weight |
| ClanRating.UpdateClanStats | src/battlefield/gamestat.cpp:358-434 | Both scores move by their gains and stop at 0; both records count the match |
| ClanRating.RecordCounts | src/battlefield/gamestat.cpp:366-409 | Over any run of matches wins, losses and draws each count their own outcomes, modulo 2^32 |
| ClanRating.RecordTotal | src/battlefield/gamestat.cpp:366-409 | As long as no counter wraps around, together they rise by one per match with a known outcome |
| Sessions.NextKeepsConsistent | src/gpcm/client.cpp:231-237 | Accept, login and disconnect each keep at most one session per profile and one entry per client |
| Sessions.ReachableIsConsistent | src/gpcm/client.cpp:228-237 | So it is in every state that can be reached |
| Sessions.FindAnyOrder | src/gpcm/client.cpp:796-815 | The session found for a profile does not depend on the order of the list |
| Sessions.LeaveTwice | src/server.cpp:354-375 | Disconnecting twice removes once |
| Sessions.FoundAfterLogin | src/gpcm/client.cpp:228-237 | After a login the profile is found at that client if and only if it was connected and did not hold the profile already, and otherwise not at all |
| Sessions.SecondLoginDisconnects | src/gpcm/client.cpp:228-237 | A run of three steps after which a profile logged in twice is not connected |
| Sessions.SyncedInReverse | src/gpcm/client.cpp:756-792 | Each call reports one further friend, each exactly once, from the last to the first, and then none |
| Sessions.SyncedOnwards | src/gpcm/client.cpp:756-792 | The calls may be made in turns, so a login and the requests after it report the whole line |
| Sessions.Server.GetClients | src/server.cpp:91-96 | A copy of the list |
| Sessions.Server.AcceptClient | src/server.cpp:138-152 | A new client with profile -1 joins at the end of the list |
| Sessions.Server.OnClientDisconnect | src/server.cpp:354-375 | The first entry of the client goes, if there is one |
| Sessions.Server.Disconnect | src/gpcm/client.cpp:104-114 | The client goes offline and leaves the table |
| Sessions.Server.DisconnectProfile | src/gpcm/client.cpp:872-888 | Removing clients while going through a copy of the list removes exactly the entries of the profile and sets exactly their clients offline |
| Sessions.Server.FindSessionByProfileId | src/gpcm/client.cpp:796-815 | The first session of the profile, or none |
| Sessions.StatusOfHolder | src/gpcm/client.cpp:763-774 | In a consistent table a friend's status is that of the client that holds the profile |
| Sessions.StatusOfNobody | src/gpcm/client.cpp:775-783 | And that of an offline client if none holds it |
| Sessions.Server.SyncFriends | src/gpcm/client.cpp:756-792 | Reports the last friend in line, with the status of the client that holds the profile or as offline if none does, and drops it from the line |
| Sessions.Server.SyncMoreFriends | src/gpcm/client.cpp:386 | Any number of calls reports the friends, and leaves the line, of that many calls |
| Sessions.Server.RequestLogin | src/gpcm/client.cpp:203-271 | The session effects of a login, which keep the table consistent: profile, token and status of the client, offline for those disconnected, and the first report about a friend; a wrong password changes nothing |

## Left out

- Sockets, threads, mutexes, sending, heartbeat timers and the logger. Sessions move in atomic steps; races between handlers are not covered.
- All MySQL code. The order of the setters when a player is loaded is kept, the values are parameters.
- MD5, SHA-1, base64, random challenges, JSON, the HTTP parser, the web endpoints, and the DNS and WebSocket servers.
- The regular-expression filters and the loop that applies them: the servers that pass are a parameter.
- Addresses of sockets, the client address and the header items of a server list: parameters of any value.
- The canned answer about a single server, and `GOAHashFinal`, which nothing calls.
- The tables of setters and the conversion of their texts to numbers: parsers return the keys and values offered to them. The fixed clan fields that a heartbeat resets before parsing are not part of it.
- Floating-point rounding: numbers are exact reals, and conversions that leave the range of their C++ type are excluded by preconditions (`InRange`, the bounds of `UpdateClanStats`).
- Buddy messages sent when a status changes, and the lookup by authentication token.
- The character test of the URL encoder on a negative `char`, which C leaves undefined: taken to be false, as in the C locale.
- The C library's answer to the digits "0x" alone: taken to be a failed match, as the C standard has it.
- Handling a text of fewer than seven characters by the transport's encryption: the source's unsigned subtraction would run past its end.
- PlayerStats.Stats.AddCounters: groups the independent counters by kind, so the order of the assignments to different counters is not the source's.
- BrowsingChallenge.WriteHeader: the first two loops of the source's `_Encrypt` are a method of their own here.
- GoaCipher.PassCards: the card assignments that the source writes out four times are one method here.
- ClanRating.RecordTotal: counters that wrap around are excluded, because a wrapped counter no longer counts matches; `RecordCounts` covers them.
