# CyberCuris in Dafny

CyberCuris keeps passwords and one-time-password secrets in encrypted files, pastes them through the Wayland
clipboard so that each copy can be read only once, and shows time-based codes. This project models the parts of it
that decide what is stored, what is read back and who receives a secret, and proves what they promise.

- **Secrets and codes.** `Base32` and `Base32Theorems`: the bit accumulator on 32-bit words, which drops its high bits,
  decodes exactly the canonical encodings of RFC 4648 section 6. `PercentCoding`, `OtpAuthUri` and `OtpAuthTheorems`:
  the provisioning URI, its order of pairs, its printing and parsing. `TotpEntry`: the stored payload, encoded and
  decoded. `TotpCode`: the dynamic truncation of RFC 4226 section 5.3 and the codes made from it.
- **Calendar.** `Calendar`: the closed form from day numbers to dates against a Gregorian calendar that counts days
  one by one. `BackupName`: the time stamp in a backup's file name.
- **Clipboard.** `ClipboardModel`: the loop as a state machine whose environment sends reads, cancellations, jobs,
  failures and time-outs in any order. `ClipboardSafety`: the invariant, kept by each step. `ClipboardJobs`: what is
  published is what the channel delivered. `ClipboardTheorems`: the results over every run. `ClipboardDelivery`: exactly
  when a secret is delivered and the loop ends. `ClipboardTurns`: what one iteration changes, and all that it leaves alone.
  `ClipboardLoop`: the loop as an object that updates its fields, proved to follow the machine.
- **Store.** `Filenames`: the two encodings of a name. `KeyDirectory`, `KeyTheorems`, `KeyVault`: what the operations
  do to the files, for all names; and, for names of allowed characters, that no sequence of operations can tell the
  directory from two plain maps. `MainKey`: the main key file, its migration and its crashes. `Keystore`: the
  directory as an object. `Listing`: sorted listings. `Editor` and `TotpEditor`: editing an entry.
- **Whole store.** `Settings`: the settings file, printed and parsed. `Backup` and `BackupTheorems`: backup and restore.
- `Wrappers`, `Bytes`, `Division`, `Bits`, `Decimal`, `Text`, `Utf8`: values, machine integers, text and their laws.

Where the source loops or updates fields in place, the model has a method with the same loop or the same updates,
proved equal to a function; the properties are proved of the function. `Hmac`, `Aead` and `Base64` stand for library
calls: any functions with the stated laws. Random salts, nonces, keys and the encryption of one entry (`Seal`) are
parameters, and so is the order in which a directory is read.

## What the code does that its documentation does not say

- The comment at `src/totp.rs:97` gives the entry's magic 17 bytes; it has 18 (`src/totp.rs:16`). The model has 18.
- The comments at `src/keystore.rs:305-307` and `src/keystore.rs:539-542` promise that different names never share a file. They can:
  `a/b` and `a_2f_b` share `a_2f_b.key` (`CollisionExample`). A name has its file to itself exactly if it has allowed characters
  only and no part of it reads as the escape of another character (`NotSharedIff`). Two names that are both
  without underscores never share a file (`SanitizedInjective`), but `a/b` shows that one alone is not enough.
- Storing `a/b` removes the file of the entry `a_b` (`StoreLosesEntryExample`; `StoreLosesEntry` says exactly when).
- Editing `a_2f_b` into `a/b` with a new secret removes what it has just stored and reports success, because
  `src/main.rs:1833` compares names and not files (`EditLosesSecret`; `EditWithNewSecret` says exactly when). The same
  holds of TOTP entries at `src/main.rs:1769` (`TotpEditor.EditLosesSecret`).
- The pass that withdraws a selection after it was read (`src/clipboard.rs:297`) acts on whatever selection is up, also on one
  published in the same iteration. That copy is withdrawn unread, and its caller is told that it is done
  (`SecondCopyLost`; `DestroyPassTakesUnread` says exactly when).
- `is_otpauth_uri` accepts the scheme in any mix of cases, the parser only in all lower or all upper case
  (`MixedCaseExample`; `MixedCaseSchemeIsRefused` says exactly when).
- An empty secret passes `decode_secret` and is refused only when it is stored (`EmptySecretIsAccepted`;
  `ResolvedSecretIsUsable` says which accepted secrets can be stored).
- A restore writes the main key before it has decoded the entries: one that fails has already replaced it
  (`FailedRestoreReplacesMainKey`; `RestoreOutcome` says what each error means for the store).
- Migration of the main key is crash safe, its first initialisation is not (`TornInitDoesNotOpen`).

## Model

| member | source | states |
|---|---|---|
| `Base32.DecodeBase32` | src/totp.rs:348-392 | The whole decoder, with each of its errors, yields what the bit-string definition of decoding says. |
| `Base32.ReadSymbols` | src/totp.rs:372-387 | The loop stops at the first bad character; otherwise fewer than 8 bits are held, the accumulator is the number the symbols spell modulo 2^32, and the bytes written followed by the held bits are exactly the bits of all symbols. |
| `Base32.Absorb` | src/totp.rs:381-386 | One symbol keeps that invariant although the 32-bit shift drops the high bits; at most 7 bits stay. |
| `Base32.DecodeData` | src/totp.rs:364-391 | Lengths 1, 3 and 6 modulo 8, bad characters and non-zero left-over bits are refused, in this order; the rest yields the whole bytes. |
| `Base32Theorems.DecodesExactlyEncodings` | src/totp.rs:346-392 | An input decodes to `b` if and only if, white space and case aside, it is the canonical encoding of the non-empty `b` followed by any number of padding characters. |
| `Base32Theorems.DecodingIsInjective` | src/totp.rs:388-391 | Two inputs that decode to the same bytes have the same data symbols. |
| `Base32Theorems.EncodesDecoded` | src/totp.rs:364-391 | Whatever decodes is exactly what the encoder writes for the result, which is not empty. |
| `Base32Theorems.SpellingDoesNotMatter` | src/totp.rs:349-353 | ASCII white space inserted anywhere and lower-casing never change the result, be it bytes or an error. |
| `Base32Theorems.TextRoundTrip` | src/totp.rs:346-392 | Encoding any non-empty bytes as text, with any padding, and decoding gives the bytes back. |
| `Base32Theorems.DecodeExample` | src/totp.rs:346-392 | A test vector of RFC 4648 section 10: `MY======` decodes to `f`. |
| `Base32Theorems.PaddingErrors` | src/totp.rs:355-367 | Which input is empty, has padding only, or neither, by what is left without the white space. |
| `Base32Theorems.DataAfterPadding` | src/totp.rs:359-363 | Anything after a padding character but padding is an error about padding. |
| `Base32Theorems.DataErrors` | src/totp.rs:364-390 | First an impossible length is blamed, then the first character outside the alphabet, then, exactly for symbols that no bytes encode to, left-over bits. |
| `Base32Theorems.DecodableLooksLikeBase32` | src/totp.rs:331-344 | Every input that decodes is recognised as base32. |
| `Base32Theorems.NeverStoresBase32Raw` | src/totp.rs:203-212 | Unless forced, valid base32 is always decoded and never stored as its own characters. |
| `Base32Theorems.LooksIff` | src/totp.rs:331-344 | What is recognised, in the decoder's terms: something is left without the white space, and all of it is padding or in the alphabet. |
| `PercentCoding.PercentDecode` | src/totp.rs:302-320 | The index loop computes the recursive definition of percent decoding, read as UTF-8 with lossy replacement. |
| `PercentCoding.DecodesEverySpelling` | src/totp.rs:302-329 | Every percent encoding of a text, whichever bytes are escaped and in either case of the digits, decodes to that text. |
| `PercentCoding.EscapedSpells` | src/totp.rs:302-329 | Escaping every byte is such an encoding, so that one exists for every text. |
| `PercentCoding.HexValueIs` | src/totp.rs:322-329 | Exactly the sixteen digits, in either case, have their value. |
| `PercentCoding.PercentExamples` | src/totp.rs:302-320 | `%3D` and `%3d` are an equals sign; a percent sign without two digits after it stands for itself. |
| `Utf8.LossyExamples` | src/totp.rs:319 | Characters of two to four bytes are read; a lone byte, a cut-off character and a surrogate are replaced. |
| `Decimal.ParseDigits` | src/totp.rs:274-281 | Digits are read as their number, with or without a plus sign, if it fits the type. |
| `Decimal.ParseNothingElse` | src/totp.rs:274-281 | Nothing else is read as a number. |
| `Text.WhitespaceOfBothKinds` | src/totp.rs:351 | ASCII white space is white space below 128 but for the vertical tab; which other characters are white space and which are not, by example. |
| `Text.CaseMaps` | src/totp.rs:352 | Raising and lowering letters undo each other, and leave no letter of the other case. |
| `OtpAuthUri.ParseOtpAuthUri` | src/totp.rs:248-300 | Scheme, query, type and pairs are checked in the source's order, with its errors. |
| `OtpAuthUri.ParsePairs` | src/totp.rs:262-299 | The loop that overwrites four variables and leaves at the first unreadable value yields what folding the pairs says, and then validates. |
| `OtpAuthUri.LastValueWins` | src/totp.rs:262-284 | The loop succeeds if and only if every value given for the algorithm and for a number is readable; then each variable comes from the last value of its key. |
| `OtpAuthTheorems.QueryParsesIff` | src/totp.rs:262-300 | A query parses to a secret and parameters if and only if all its numbers and algorithms are readable, its last secret decodes to this one, and the parameters are the last ones given, or SHA-1, 6 digits and 30 seconds, and valid. |
| `OtpAuthTheorems.ParsedHasForm` | src/totp.rs:248-261 | An input parses only if it is, white space aside, one of the two schemes, a path whose first part is `totp`, a question mark and pairs; then the pairs decide. |
| `OtpAuthTheorems.OtherTypeIsRefused` | src/totp.rs:257-260 | Every other type, whatever follows it, is refused for its type. |
| `OtpAuthTheorems.HotpIsRefused` | src/totp.rs:257-260 | So `otpauth://hotp/...` is. |
| `OtpAuthTheorems.NoQueryIsRefused` | src/totp.rs:254-256 | A URI without a question mark is refused. |
| `OtpAuthTheorems.UnreadableValue` | src/totp.rs:273-281 | The first value that cannot be read is blamed, as an algorithm or as a number. |
| `OtpAuthTheorems.FinishErrors` | src/totp.rs:286-295 | After the loop a missing secret is blamed, then one that does not decode, then the parameters, each with its error. |
| `OtpAuthTheorems.NoSecretIsRefused` | src/totp.rs:286-287 | A readable query is refused for a missing secret if and only if it gives none. |
| `OtpAuthTheorems.AlgorithmNameParses` | src/totp.rs:61-71 | A text is read as an algorithm if and only if it is its name in any mix of cases. |
| `OtpAuthTheorems.AlgorithmExamples` | src/totp.rs:61-71 | `SHA1`, `SHA256` and `sha512` are read, `md5` is not. |
| `OtpAuthTheorems.KeyCaseDoesNotMatter` | src/totp.rs:271-283 | Pairs whose keys agree after lower-casing are read alike, whatever their value. |
| `OtpAuthTheorems.KnownKeys` | src/totp.rs:271-283 | `secret` and `Secret`, `algorithm`, `digits` and `period` are read, `issuer` is passed over. |
| `OtpAuthTheorems.OrderOfKeysDoesNotMatter` | src/totp.rs:262-300 | Two queries that give each known key the same values in the same order have the same outcome. |
| `OtpAuthTheorems.SwapNeighbours` | src/totp.rs:266-284 | Neighbouring pairs can be swapped anywhere unless both give the same known key; pairs of unknown keys always can. |
| `OtpAuthTheorems.DifferInLowerCase` | src/totp.rs:266-284 | In particular all pairs whose keys differ after lower-casing can. |
| `OtpAuthTheorems.PrintedUriParses` | src/totp.rs:243-300 | A URI that says a secret and valid parameters, with either scheme, in any order, with any percent encoding, repeated and unknown keys and any surrounding white space, parses to exactly these. |
| `OtpAuthTheorems.CanonicalPairsSay` | src/totp.rs:243-300 | Such pairs exist for every non-empty secret and all parameters, in every order of the keys. |
| `OtpAuthTheorems.ParsedUriIsUsable` | src/totp.rs:286-300 | Every parsed URI can be encoded as an entry, decodes from it unchanged, and generates a code at every time. |
| `OtpAuthTheorems.MixedCaseSchemeIsRefused` | src/totp.rs:230-253 | A recognised URI is refused as not being one if and only if its scheme is neither all lower nor all upper case. |
| `OtpAuthTheorems.MixedCaseExample` | src/totp.rs:230-253 | `Otpauth://` followed by anything that does not end in white space is recognised as a URI and refused as not being one. |
| `OtpAuthTheorems.DecodedSecretEmpty` | src/totp.rs:203-212 | An accepted bare secret is empty if and only if the input is. |
| `OtpAuthTheorems.EmptySecretIsAccepted` | src/totp.rs:203-237 | The empty input resolves to the empty secret, forced or not, and no parameters let it be stored. |
| `OtpAuthTheorems.BareSecretIsDecoded` | src/totp.rs:225-237 | A bare secret that is valid base32 resolves to its decoding and the fallback parameters. |
| `OtpAuthTheorems.BareSecretIsRaw` | src/totp.rs:203-237 | It resolves to its own bytes if raw is asked for or it does not look like base32; one that looks like base32 and is not valid is refused with the decoder's error. |
| `OtpAuthTheorems.UriDecides` | src/totp.rs:230-233 | A URI resolves to its own secret and parameters or its own error, whatever the fallback and the raw option. |
| `OtpAuthTheorems.ResolvedSecretIsUsable` | src/totp.rs:225-237 | A resolved secret can be stored if and only if it came from a URI, or the input is not empty and the fallback parameters are valid. |
| `TotpEntry.EncodeEntry` | src/totp.rs:98-114 | The buffer, appended piece by piece, is the entry of these parameters and this secret; bad ones are refused. |
| `TotpEntry.DecodeInvertsEncode` | src/totp.rs:98-143 | Decoding `x` gives parameters and a secret if and only if encoding these gives `x`. |
| `TotpEntry.EncodableIffValid` | src/totp.rs:82-105 | Entries can be encoded if and only if digits are 6 to 8, the period is 1 to 3600 and the secret is not empty. |
| `TotpEntry.EntryLayout` | src/totp.rs:107-113 | The payload byte by byte: 18 bytes of text, the algorithm as 0, 1 or 2, the digits, the period with its lowest byte first, the secret. |
| `TotpEntry.ValidateErrors` | src/totp.rs:82-93 | Each refusal of parameters, exactly. |
| `TotpEntry.EncodeErrors` | src/totp.rs:102-105 | Bad parameters are blamed before an empty secret. |
| `TotpEntry.DecodeErrors` | src/totp.rs:116-141 | Each refusal of a payload, by the bytes that it has. |
| `TotpCode.TruncateIsDynamicTruncation` | src/totp.rs:166-171 | No index leaves the hash, and the shifts and masks compute the low 31 bits of the big-endian word at the offset. |
| `TotpCode.MessageIsCounter` | src/totp.rs:156-158 | The period's number fits into eight bytes, which read back as it. |
| `TotpCode.CodeMeansTruncation` | src/totp.rs:146-176 | A code is generated for exactly the secrets and parameters that can be stored, and refused with the same error. It has exactly `digits` decimal characters. With the eight-byte message that reads as the period's number, hashed by the chosen algorithm with the secret as the key, they denote the low 31 bits of the four bytes at the offset in the hash's last four bits, modulo 10^digits. |
| `TotpCode.TruncateExample` | src/totp.rs:166-175 | The example of RFC 4226 section 5.4: a 20-byte hash with its last byte and its four bytes at offset 10 gives the code 872921. |
| `TotpCode.CodeConstantInPeriod` | src/totp.rs:156-164 | All times of one period give the same code. |
| `TotpCode.ShortCodeIsSuffix` | src/totp.rs:172-175 | A code of fewer digits is a suffix of the longer one. |
| `Calendar.CivilFromDaysSound` | src/main.rs:1904-1916 | For every day number that does not overflow, the result is a date of the Gregorian calendar and the day number counts its days; no intermediate leaves its machine type. |
| `Calendar.CivilFromDaysComplete` | src/main.rs:1904-1916 | Every date is the one computed from its day number: the two functions are inverse to each other. |
| `Calendar.CivilFromDaysWalks` | src/main.rs:1904-1916 | Day 0 is 1970-01-01, and day `z + 1` is the calendar successor of day `z`. |
| `Calendar.YearOfEraBounds` | src/main.rs:1908-1910 | The closed form picks the year that holds the day; day 365 falls in leap years only. |
| `Calendar.EraIsFloor` | src/main.rs:1905-1907 | The truncating division of the shifted day number is the floor, so that the day of the era is a remainder. |
| `Calendar.NextDayCounts` | src/main.rs:1902-1916 | The reference: one calendar step, by month lengths and the 4, 100 and 400 year rule, raises the day number by one. |
| `Calendar.DaysFromDateInjective` | src/main.rs:1902-1916 | The reference: no two dates share a day number. |
| `BackupName.TimestampSplits` | src/main.rs:925-933 | Date, hour, minute and second are valid and together count the seconds exactly. |
| `BackupName.FileNameReadsBack` | src/main.rs:925-937 | Every file name reads back: after the prefix year, month, day, hour, minute and second, in this order, the last five with two digits after a dash; they are a date and a time of day that make up the time stamp. |
| `BackupName.FileNameInjective` | src/main.rs:925-937 | Different seconds give different file names, for all 64-bit times. |
| `ClipboardLoop.Loop.RunLoop` | src/clipboard.rs:274-378 | The loop over any environment does what the state machine does, and after its end selection, secret and sender are gone. |
| `ClipboardLoop.Loop.RunTurn` | src/clipboard.rs:274-348 | One iteration, field by field, is one step of the machine. |
| `ClipboardLoop.Loop.DrainJobs` | src/clipboard.rs:283-295 | Holds are published in order up to a Shutdown or the end of the channel. |
| `ClipboardLoop.TakenIsPrefix` | src/clipboard.rs:283-295 | The jobs that a drain takes are those before the first Shutdown. |
| `ClipboardLoop.Loop.DrainAndDestroy` | src/clipboard.rs:283-305 | The pass scheduled before the dispatch withdraws whatever is up after the drain. |
| `ClipboardLoop.Loop.FlushAndPoll` | src/clipboard.rs:307-375 | Flush, leaving the loop, the bounded or unbounded poll, and what is let go on each way out. |
| `ClipboardLoop.Loop.SetSelection` | src/clipboard.rs:380-401 | The old selection is destroyed, the new one published, the old sender dropped and both flags cleared. |
| `ClipboardLoop.Loop.HandleEvent` | src/clipboard.rs:478-516 | The secret goes to the first text reader only; a cancellation takes everything down. |
| `ClipboardSafety.RunKeeps` | src/clipboard.rs:225-378 | The invariant holds after every run: fields agree with each other and with the log, and senders and selections balance. |
| `ClipboardJobs.PublishedAreTaken` | src/clipboard.rs:283-295 | In every run the published ciphertexts and senders are, in order, those of the Hold jobs that the channel delivered before each Shutdown to the iterations that reached the drain. |
| `ClipboardJobs.TallyCountsHolds` | src/clipboard.rs:283-295 | So the senders and selections that the invariant balances are those of these jobs. |
| `ClipboardTheorems.PasteOnceInEveryRun` | src/clipboard.rs:478-505 | In every run each selection is delivered at most once, each delivery is of the last published ciphertext while it is up, the selections published are in order the Hold jobs taken, and deliveries never outnumber these. |
| `ClipboardTheorems.NoEndlessWait` | src/clipboard.rs:319-341 | At every poll whose time-out is negative, the selection that is up, if any, has not been read. |
| `ClipboardTheorems.ReadSelectionGoes` | src/clipboard.rs:278-305 | A selection read in one iteration, and every earlier one, is withdrawn and its sender resolved by the end of the next pass. |
| `ClipboardTheorems.NothingLost` | src/clipboard.rs:380-401 | At all times the senders of the Hold jobs taken are those resolved plus the one waiting, and each of these jobs has its selection withdrawn, but for the one that is up; secret and selection come and go together. |
| `ClipboardTheorems.NothingLeftAfterEnd` | src/clipboard.rs:368-374 | After any end of the loop, with or without an error, the sender of every Hold job taken has been resolved and every selection withdrawn, each exactly once. |
| `ClipboardTheorems.PublishedIds` | src/clipboard.rs:386-396 | Each selection is published once and withdrawn at most once. |
| `ClipboardTheorems.OnlySupersededAreDropped` | src/clipboard.rs:380-401 | A sender is dropped without a signal only where a new selection is published or the loop fails and abandons its own; and it is the sender of the last selection published before that. |
| `ClipboardTheorems.OwnSenderIsSignalled` | src/clipboard.rs:297-374 | Whenever a sender is signalled, by the destroy pass, a cancellation or the end, it is that of the last selection published, which has been withdrawn just before. |
| `ClipboardTheorems.DestroyPassTakesUnread` | src/clipboard.rs:297-305 | The pass withdraws an unread selection if and only if a Hold was drained in the same iteration. |
| `ClipboardTheorems.HoldLostToDestroyPass` | src/clipboard.rs:283-305 | In that case the last drained Hold is withdrawn unread and its caller is signalled, in every such run. |
| `ClipboardTheorems.SecondCopyLost` | src/clipboard.rs:274-326 | A run in which this happens: copy, paste, copy. |
| `ClipboardDelivery.DispatchDelivers` | src/clipboard.rs:478-516 | A batch of events delivers the held secret, once, if and only if it is unread and a reader asks for text before the first cancellation; otherwise it delivers nothing. |
| `ClipboardDelivery.IterationDelivers` | src/clipboard.rs:274-378 | In every iteration of every run that batch is all that is ever delivered. |
| `ClipboardDelivery.DrainedHoldIsUp` | src/clipboard.rs:278-305 | Where no destroy pass was scheduled, the last drained Hold is up and unread when the next batch arrives. |
| `ClipboardDelivery.LoopEnds` | src/clipboard.rs:281-348 | An iteration ends the loop normally if and only if it drains a Shutdown or finds the channel closed and nothing fails; it ends with an error if and only if dispatch, flush or a poll that is reached fails. |
| `ClipboardTurns.IterationState` | src/clipboard.rs:274-326 | The whole state after an iteration of any run that goes on: a scheduled pass takes everything down; else the last Hold taken is up; else what was up before, unless it was cancelled. A pass is scheduled for the next iteration if and only if the secret was delivered in this one and not replaced since. |
| `ClipboardTurns.UnreadStays` | src/clipboard.rs:274-326 | An unread copy stays up, with its sender, through every iteration without a text read, a cancellation or a new Hold. |
| `ClipboardTurns.IterationSignals` | src/clipboard.rs:297-374 | Exactly who is told: a cancellation tells whoever waited before; the scheduled pass, or the end of the loop without an error, tells whoever waits after the drain; nobody else is told. |
| `ClipboardTurns.IterationPolls` | src/clipboard.rs:307-341 | Every iteration that gets that far polls once: for 200 milliseconds if the secret was delivered in it and not replaced since, without a bound otherwise. |
| `ClipboardTurns.IterationAnswers` | src/clipboard.rs:480-505 | Every read is answered once, with the secret or with nothing. |
| `ClipboardTurns.OfferedTypesAreServed` | src/clipboard.rs:481-483 | Reads as `text/plain;charset=utf-8` and `text/plain` get the unread secret, one as `image/png` does not. |
| `Filenames.SanitizeFilename` | src/keystore.rs:543-554 | The loop replaces each character by its own text. |
| `Filenames.SanitizedIdempotent` | src/keystore.rs:543-554 | The result has allowed characters only, encoding again changes nothing, and exactly the names of allowed characters are unchanged. |
| `Filenames.AllowedCodes` | src/keystore.rs:546 | The characters that pass through, by their codes. |
| `Filenames.SpaceExample` | src/keystore.rs:543-554 | `a b` becomes `a_20_b`, `example.com` stays. |
| `Filenames.DecodeSanitized` | src/keystore.rs:537-554 | Names without underscores are recovered by a decoder of hexadecimal groups of any width. |
| `Filenames.SanitizedInjective` | src/keystore.rs:537-542 | Two names that are both without underscores and share a file are the same. |
| `Filenames.NotSharedIff` | src/keystore.rs:537-554 | No other name shares the file of a name if and only if the name has allowed characters only and contains no escape of a character that is not allowed. |
| `Filenames.CollisionExample` | src/keystore.rs:539-542 | `a/b` and `a_2f_b` share a file. |
| `Filenames.LegacyDiffers` | src/keystore.rs:357-369 | The two encodings of a name differ if and only if it has a character that is not allowed. |
| `KeyDirectory.FileNameInjective` | src/keystore.rs:342-353 | Files of different stems or of different kinds are different: TOTP files never alias password files. |
| `KeyDirectory.PlainFilesExample` | src/keystore.rs:343-353 | The entries of `github` are `github.key` and `github.totp`. |
| `KeyDirectory.EscapedFilesExample` | src/keystore.rs:343-369 | The password of `a/b` is in `a_2f_b.key`, formerly `a_b.key`. |
| `KeyDirectory.StemsAre` | src/keystore.rs:299-312 | A stem is listed if and only if it is not empty and its file exists. |
| `KeyTheorems.StoreThenRead` | src/keystore.rs:156-174 | For all names, storing makes the new data readable, changes no file but the name's two, and leaves the legacy one absent. |
| `KeyTheorems.ReadsFirstFile` | src/keystore.rs:194-218 | A password is read from its primary file, else its legacy file, and is not found if and only if it has neither; a TOTP entry from its one file. |
| `KeyTheorems.RemoveThenHasNot` | src/keystore.rs:224-237 | Removing takes exactly the name's two files away. |
| `KeyTheorems.RenameMoves` | src/keystore.rs:248-273 | The new name reads what the old one did; the old one is still found if and only if the new file is one of its own two; no other file changes. |
| `KeyTheorems.RenameLeavesOneFile` | src/keystore.rs:260-271 | Of the files of the two names only the new one is left. |
| `KeyTheorems.RenamingNothing` | src/keystore.rs:253-282 | Renaming what is not there changes nothing. |
| `KeyTheorems.StoreLosesEntry` | src/keystore.rs:165-172 | Storing one name removes the entry of another, of allowed characters, if and only if its file is the first one's legacy file. |
| `KeyTheorems.LegacyPathIs` | src/keystore.rs:355-369 | Which names these are. |
| `KeyTheorems.StoreLosesEntryExample` | src/keystore.rs:165-172 | Storing `a/b` removes `a_b`. |
| `KeyTheorems.TotpOperations` | src/keystore.rs:176-286 | For all names, TOTP entries are stored, removed and renamed within the files of the names given; a rename keeps the data, and the old name stays if and only if the two share a file. |
| `KeyTheorems.KindsApart` | src/keystore.rs:342-389 | Storing or removing one kind of entry changes no reading of the other kind, whatever the names. |
| `KeyVault.StepRefines` | src/keystore.rs:156-389 | On non-empty names of allowed characters each of the ten operations acts and replies like the same operation on two plain maps; a list replies with the sorted keys. |
| `KeyVault.RunRefines` | src/keystore.rs:156-389 | So does every sequence of them, from every directory, with all its replies. |
| `Listing.ListsUnique` | src/keystore.rs:313-314 | There is only one sorted listing of a set of names without duplicates. |
| `Listing.SortLists` | src/keystore.rs:308-313 | Sorting names without duplicates gives it. |
| `Listing.LessAtFirstDifference` | src/keystore.rs:313 | The order is ascending: a name comes first if it has the lower character at the first difference, or ends there. |
| `Keystore.Keystore.ListFiles` | src/keystore.rs:288-340 | In whatever order the directory is read, the names returned are the one sorted duplicate-free listing of its stems. |
| `Keystore.Keystore.StorePassword` | src/keystore.rs:156-174 | The new directory, in which the name reads the new ciphertext. |
| `Keystore.Keystore.ReadPasswordCiphertext` | src/keystore.rs:194-203 | The primary file's contents, else the legacy file's, else not found. |
| `Keystore.Keystore.RemovePassword` | src/keystore.rs:224-237 | The new directory, in which the name is not found; an error if and only if it was not before. |
| `Keystore.Keystore.RenamePassword` | src/keystore.rs:248-273 | The new directory; an error if and only if the old name was not found. |
| `Keystore.Keystore.StoreTotp` | src/keystore.rs:176-192 | The encoded entry is stored; nothing changes if it cannot be encoded. |
| `Keystore.Keystore.RemoveTotp` | src/keystore.rs:239-246 | The TOTP file is removed, or reported missing. |
| `Keystore.Keystore.RenameTotp` | src/keystore.rs:275-286 | The TOTP file is moved, or reported missing. |
| `Keystore.Keystore.InitMainKey` | src/keystore.rs:57-79 | It takes exactly the steps of an initialisation, and the new main key file opens to the generated key. |
| `Keystore.Keystore.LoadMainKey` | src/keystore.rs:81-154 | Both formats and their errors; it takes exactly the steps of a load, and afterwards the directory opens, or fails to open, to the same result, with the file in the new format if it opens. |
| `MainKey.LoadKeepsKey` | src/keystore.rs:88-152 | A completed load opens to the same key, or fails as before and has changed nothing; if it opens, the file has the new size and no later load rewrites it. |
| `MainKey.CrashLeavesOldOrNew` | src/keystore.rs:508-519 | After such a crash all files but the temporary one are as before, or the load is complete. |
| `MainKey.CrashKeepsKey` | src/keystore.rs:102-124 | Wherever a load crashes between or during its steps, also with a temporary file of any content, the same password opens the same key or fails as before. |
| `MainKey.HistoryKeepsKey` | src/keystore.rs:81-154 | So over every history of loads, each of which may crash anywhere. |
| `MainKey.InitThenLoad` | src/keystore.rs:57-79 | Initialising and loading return the generated key, and the load does not migrate. |
| `MainKey.OldFileLoads` | src/keystore.rs:88-127 | Every file written in the old format, with 100,000 rounds on the fixed salt, opens to its key; loading it leaves the key in the new format, with 600,000 rounds on the salt drawn, no temporary file, and all else as it was. |
| `MainKey.NewFileLoads` | src/keystore.rs:128-151 | Every file written in the new format opens to its key, and loading it changes nothing. |
| `MainKey.OpenFails` | src/keystore.rs:85-152 | Each error, exactly: no file; neither size; or a file of one of the sizes that does not decrypt. |
| `MainKey.SaltPrefixIsText` | src/keystore.rs:25 | The fixed salt is the text `cybercuris-main-key-v2`. |
| `MainKey.TornInitDoesNotOpen` | src/keystore.rs:494-506 | A crash while initialising can leave the file with any number of its bytes; no password opens it then, unless that number is the old format's size. |
| `Editor.EditPassword` | src/main.rs:1798-1843 | The new directory and the outcome of each branch. |
| `Editor.EditWithNewSecret` | src/main.rs:1817-1839 | For a listed old name, another new name and a new secret: the old entry is gone; the new secret is readable if and only if the new file is not the old one; success is reported if and only if the new legacy file is not the old file. |
| `Editor.EditOneThing` | src/main.rs:1810-1832 | Without a new secret the entry is renamed and keeps its secret; with an unchanged name the new secret is readable under it. |
| `Editor.FailedEdit` | src/main.rs:1805-1838 | A refused edit changes nothing; a failed removal has stored the new secret; each of the four failures has exactly its cause. |
| `Editor.EditLosesSecret` | src/main.rs:1833-1839 | Editing `a_2f_b` into `a/b` loses the secret and reports success. |
| `Editor.EditFrame` | src/main.rs:1798-1843 | No file changes but those of the two names. |
| `TotpEditor.EditTotp` | src/main.rs:1719-1779 | The new directory and the outcome of each branch. |
| `TotpEditor.EditWithNewSecret` | src/main.rs:1731-1775 | From typed text to stored file: success if and only if the text resolves and comes from a URI or with valid parameters, else nothing changes; then the old entry is gone, and the new one exists if and only if its file is not the old one, and reads back as the resolved secret and parameters. |
| `TotpEditor.TypedBase32IsStored` | src/main.rs:1731-1775 | Typing the base32 text of any secret with valid parameters stores an entry that reads back as that secret and those parameters. |
| `TotpEditor.EditRenames` | src/main.rs:1732-1738 | Without a new secret the entry is renamed and keeps its data, or is reported missing. |
| `TotpEditor.FailedEdit` | src/main.rs:1727-1768 | A refused edit changes nothing, and each refusal has exactly its cause. |
| `TotpEditor.FailedRemoval` | src/main.rs:1769-1774 | A failed removal has stored the new entry; it happens if and only if the old entry was not there and does not share the new one's file. |
| `TotpEditor.EditLosesSecret` | src/main.rs:1769-1774 | Editing `a_2f_b` into `a/b` with a raw secret loses it and reports success. |
| `TotpEditor.EditFrame` | src/main.rs:1719-1779 | No file changes but the TOTP files of the two names. |
| `TotpEditor.PasswordsUntouched` | src/main.rs:1719-1779 | Every password reads as before. |
| `Settings.Load` | src/settings.rs:28-59 | The loop over the lines computes the fold of their effects. |
| `Settings.LoadedInDomain` | src/settings.rs:36-57 | Whatever the file holds, the timeout is positive and both keys are single characters, not white space. |
| `Settings.LastUsableWins` | src/settings.rs:36-57 | Each setting is the last usable value given for it, or the default. |
| `Settings.SaveLoadRoundTrip` | src/settings.rs:28-77 | Saved settings load unchanged if and only if the timeout is positive and both keys are single characters, not white space. |
| `Settings.SpacingDoesNotMatter` | src/settings.rs:37-41 | White space around the key, the value and the line makes no difference. |
| `Settings.DefaultPrinted` | src/settings.rs:68-74 | The text that the default settings are saved as. |
| `Settings.CarriageReturnsAreDropped` | src/settings.rs:36 | Lines may end in a carriage return and a line feed. |
| `Settings.LastLineNeedsNoFeed` | src/settings.rs:36 | The last line needs no line feed. |
| `Settings.DefaultsWithoutFile` | src/settings.rs:28-35 | Without a file, or with an empty one, the settings are 14400 seconds, `x` and `h`. |
| `Backup.BackupEntries` | src/backup.rs:84-108 | It succeeds if and only if every stem can be read under itself; the entries are the sorted listing with the contents of each. |
| `Backup.BackupToFile` | src/backup.rs:76-119 | Backup succeeds if and only if the store is initialised and all entries are readable, and the result is the backup of the store. |
| `Backup.WriteFiles` | src/backup.rs:176-208 | Entries are written in order up to the first that does not decode. |
| `Backup.RestoreFromFile` | src/backup.rs:129-226 | The new store and the outcome, with every refusal in the source's order. |
| `BackupTheorems.BackupUnique` | src/backup.rs:76-119 | A store has only one backup. |
| `BackupTheorems.RestoreOutcome` | src/backup.rs:134-218 | A restore that fails without blaming an entry has changed nothing; any other has replaced the main key, and has written the settings only if it succeeded; without force, a store with a main key or any entry is always refused. |
| `BackupTheorems.RefusedIff` | src/backup.rs:134-166 | Each refusal, exactly, and that it changes nothing: data without force, then text that is no backup, then a version other than 1, then a main key that does not decode. |
| `BackupTheorems.OtherVersionIsRefused` | src/backup.rs:156-161 | A backup of another version changes no store and is never accepted, with force or without. |
| `BackupTheorems.FailedRestoreReplacesMainKey` | src/backup.rs:163-208 | Such a failure at an input: for every store, a forced restore of a backup with one entry that does not decode fails and has replaced the main key. |
| `BackupTheorems.FailsAtPassword` | src/backup.rs:176-191 | A restore whose first password entry that does not decode is the `i`-th blames it and has written exactly the ones before it. |
| `BackupTheorems.FailsAtTotp` | src/backup.rs:176-208 | One whose first TOTP entry that does not decode is the `i`-th blames it and has written all passwords and exactly the TOTP entries before it. |
| `BackupTheorems.RestoreOverrides` | src/backup.rs:163-218 | A restore that is not refused succeeds if and only if all entries decode; then every file holds what the last entry for it says, or else what it held before. |
| `BackupTheorems.BackupRoundTrip` | src/backup.rs:76-218 | Restoring a backup into an empty store always succeeds and brings back the main key file; it brings back exactly the old entries if and only if their file names are all encodings, and the settings if and only if they are loadable. |
| `BackupTheorems.BackupKeepsMainKey` | src/backup.rs:163-173 | The same password opens the same main key in the restored store. |
| `BackupTheorems.RunKeepsOwnFiles` | src/backup.rs:176-208 | Every sequence of operations on non-empty names, of any characters, makes only files with encoded names. |
| `BackupTheorems.RunThenBackupRoundTrip` | src/backup.rs:76-218 | So every store built by operations can be backed up once it has a main key, and its backup restores it entirely. |

## Left out

- The session: `CachedKey` and the unlock, lock, signal and timer handlers of `src/main.rs`. That a locked session has no key
  and no clipboard handle is a case analysis; the clipboard model takes its Shutdown from the environment, and
  the editors take the key as a value that may be absent.
- `src/single_instance.rs` and `src/memory_guard.rs`: sockets, page locking and the clearing of memory.
- The windows, dialogs, tray, command line and terminal, and what they say beyond success and the kind of failure.
- The Wayland connection, its file descriptors and the start-up probe: only the events that reach the loop are modelled.
- The ciphers, key derivation, HMAC and random numbers: parameters with laws, not proofs about cryptography.
- Base64 and YAML: a backup is the value that its text spells, and any unparsable text is one error.
- Failures of the file system other than a missing file, limits on the length of a file name, and writes torn by a crash
  except those of the main key file.
- File names that are not UTF-8, which the listings pass over.
- ClipboardTheorems.PasteOnceInEveryRun: a delivery is recorded when the secret is due to a reader; whether its decryption
  or the pipe fails afterwards is not modelled, so that the numbers are upper bounds on what readers receive.
- ClipboardTheorems.NothingLost: a Hold that is still in the channel when the loop ends is not taken and not counted.
- OtpAuthTheorems.OrderOfKeysDoesNotMatter: of two failing queries the first error met may differ, as it does in the source.
- OtpAuthTheorems.PrintedUriParses: accounts with a question mark and pairs with an ampersand must escape them, as
  the format demands; the printed URI itself neither starts nor ends in white space.
- MainKey.TornInitDoesNotOpen: a part with exactly the old format's size is tried as such a file, and only the cipher's authenticity,
  which is not among the laws assumed, refuses it.
