# KMSync, modelled and proved

KMSync shares one keyboard, mouse and clipboard between several machines. This project models the parts
of it where state and arithmetic have to agree, and proves what they promise:

- the binary frame format: five kinds of payload, two encoders, one decoder with legacy paths
  (`Frames`, `FrameCodec`, `FrameEncoders`, `FrameLaws`, `DecoderLaws`, `ContentHashes`, `FileNames`, over `Bytes`,
  `Text`, `Sequences` and `Events`);
- the encrypted data plane: a sealer that numbers frames and rotates key epochs, a sliding replay window
  in the bits of a `u128`, an opener that checks everything before it records a number, and the
  length-prefixed streams below them (`Replay`, `DataPlane`, `SecureChannel`, `StreamFraming`);
- the server: registration and tombstones, presence, grouped deletion, versioned profiles with rollback
  and a change feed (`ServerData`, `StoreSteps`, `StoreService`, what each request leaves in `RequestEffects`,
  and the laws of runs in `LastWrites`, `KeyLifecycle`, `GroupedDeletion`, `SharedIdentity`, `DeletedMachines`, `LiveReferences`, `PresenceVersions`, `RecordVersions`,
  `ProfileSync`, `ProfileEvents`, `ProfileHistory`, with runs to the exceptions in `Counterexamples`), and the relay
  hub under reconnects (`Relay`);
- the desktop's peer list and the layout slots that follow it (`PeerIndex`, `PeerKeys`, `LanAddresses`);
- the key table and the tracker of held keys (`Keymap`, `InputState`).

Code that changes things in place is modelled by methods and classes with the source's fields; each is
proved against a function of its inputs or of its old state, and the laws are proved about those functions,
over every input, every run of requests or every interleaving. A server request is one step, as the handlers
hold the store's lock throughout; sending a relay frame is two, because it gives the lock up in between.

What an operation computes is also stated in the terms of its caller: the fields of a request, the settings of a
configuration, the bytes on the wire. `SealedExactly`, `HeartbeatStores` or `WinnerIsPreferred` say it for one
operation, `PresenceIsTheLastReport`, `LayoutIsTheLastPut`, `SettingsAreTheLastSet`, `DisabledStaysRefused` or
`MachineStaysOut` for whole runs.

## What turned out to hold, exactly

Several claims that one would expect are not true of the code on all inputs. Each is stated here with the
condition under which it does hold, proved in both directions where it says "if and only if".

- A frame survives encoding and decoding if and only if it is `Representable`. Besides lengths that fit
  their fields, an image needs width plus height to be no more than its number of bytes, because the decoder
  checks that sum before it looks at the format (`RoundTripExactly`); four bytes a pixel always suffice
  (`RgbaImageFits`).
- Sanitising a file name is not idempotent: "a/ b" becomes " b", and that becomes "b". Once is a fixed
  point if and only if the last separator of the trimmed name has no white space after it; twice always is.
- A button event in the first wire format has 23 bytes and is too short for the frame parser; the other
  events of that format are read (`LegacyDecodesExactly`).
- A sealer never repeats an (epoch, sequence) pair if and only if an epoch holds fewer than 2^32 frames.
- Text mode can leave a key stuck: a press under a shortcut's modifiers and a release without them may go to
  different keys. It never happens if and only if the shortcuts agree with the key table (`ShortcutsAgree`).
  Physical mode always meets this. Text mode from macOS to another system never does, because undo and redo are
  both on Z there and on Z and Y here (`MacTextModeSticks`).
- Frames that share a sealer can be lost without any loss on the way: the lanes overtake each other. A frame
  from a stream is lost if and only if one of its epoch that is the replay window or more above it was opened
  before it (`LanesLoseOvertakenFramesOnly`). It never happens, in any run, if and only if an epoch is no longer
  than the window (`NothingIsOvertakenExactly` for any deliveries, `LanesLoseNothingExactly` for streams and
  datagrams). The program's settings, 4096 frames and a window of 64, do not meet this: with them a heartbeat is
  lost (`ShippedSettingsLoseAFrame`).
- Reauthorizing a device can give two devices one key (`ReauthorizingDuplicatesAKey`). Keys stay unique
  throughout a run if and only if no reauthorization in it takes a key that another device of the user holds or
  a tombstone has (`KeysStayUniqueExactly`).
- A heartbeat that finds its machine deleted removes the device but no topology and no profile, so that a
  topology can be left dangling (`EvictingLeavesATopologyDangling`). References stay live throughout a run if
  and only if no eviction hits a device that is named (`ReferencesStayLiveExactly`).
- Deleting a device drops its profiles and keeps their history, so that a later rollback can bring back a
  configuration from before the deletion (`DeletedVersionComesBack`); a rollback finds the profile's own
  versions if and only if the history is no longer than those (`RollbackFindsOwnVersionsExactly`).
- Sharing a presented identity is symmetric but not transitive (`SharingIsNotTransitive`). It closes through a
  record if and only if the record shows at most one LAN address, as long as keys differ in more than white
  space; with any keys, if and only if the record can be recognised in one way only. For such records of one
  machine it does not matter which of them is deleted (`DeletionIgnoresTheMember`).
- Peer keys are text, and a comma in an address or a bar in a name can make different devices look alike
  (`CommasRunTogether`, `BarsRunTogether`); without them `KeysMatchExactly` says what equal keys mean. A device
  without bars is taken for another, plain one if and only if its joined address list, split at all its commas,
  is in strictly rising order and is not the list itself (`TakenForAnotherExactly`).
- Canonicalising a layout can put one device into two slots; `SlotsMergeExactly` says when.
- The change feed misses a profile if and only if the revision counter cannot move any more.

## Model

| member | source | states |
|---|---|---|
| Text.FromUtf8OfUtf8 | crates/kmsync-core/src/protocol.rs:780-784 | Decoding the UTF-8 bytes of a string gives the string (section 3 of RFC 3629) |
| Text.Utf8OfFromUtf8 | crates/kmsync-core/src/protocol.rs:780-784 | Bytes accepted as UTF-8 are the encoding of what they decode to: no overlong form, no surrogate |
| Bytes.FromLeOfLe | crates/kmsync-core/src/protocol.rs:690-732 | A little-endian field read back is the number written, for every width |
| Bytes.LeOfFromLe | crates/kmsync-core/src/protocol.rs:734-760 | A little-endian field is determined by the number read from it |
| FileNames.SanitizeGivesBaseName | crates/kmsync-core/src/protocol.rs:585-593 | A sanitised name is not empty, holds no separator and does not end in white space |
| FileNames.SanitizeTwiceIsFixed | crates/kmsync-core/src/protocol.rs:585-593 | Sanitising twice is a fixed point, for every name |
| FileNames.SanitizeOnceFixedExactly | crates/kmsync-core/src/protocol.rs:585-593 | Sanitising a name once is a fixed point if and only if the last separator of the trimmed name has no white space after it |
| FileNames.SanitizeIsNotIdempotent | crates/kmsync-core/src/protocol.rs:585-593 | "a/ b" becomes " b", which is not a fixed point |
| FrameEncoders.EncodeVec | crates/kmsync-core/src/protocol.rs:690-732 | The growing encoder returns the bytes of the frame format, for every frame |
| FrameEncoders.AppendContent | crates/kmsync-core/src/protocol.rs:923-952 | Rich content appended as kind, length, metadata, text, markup and image |
| FrameEncoders.AppendFiles | crates/kmsync-core/src/protocol.rs:1023-1040 | A file list appended as kind, length computed beforehand, and entries in order |
| FrameEncoders.EntriesLenIsLength | crates/kmsync-core/src/protocol.rs:974-984 | The length computed without encoding is the length of the encoded entries |
| FrameEncoders.EncodeInto | crates/kmsync-core/src/protocol.rs:635-688 | The in-place encoder succeeds if and only if all lengths fit and the buffer is large enough; then the buffer starts with what the growing encoder returns and is unchanged after it; otherwise the error is the one of the check that the code makes first |
| FrameEncoders.EncodeTextInto | crates/kmsync-core/src/protocol.rs:664-682 | Plain text in place: payload or nothing after the first 20 bytes, and which error |
| FrameEncoders.EncodeContentInto | crates/kmsync-core/src/protocol.rs:888-921 | Rich content in place: payload or nothing after the first 20 bytes, and which error |
| FrameEncoders.EncodeFilesInto | crates/kmsync-core/src/protocol.rs:986-1021 | A file list in place; it succeeds if and only if count, names and total fit and the buffer is large enough |
| FrameEncoders.EncodeChunkInto | crates/kmsync-core/src/protocol.rs:1042-1059 | A file chunk in place, with the order of its two checks |
| FrameEncoders.EncodeControlInto | crates/kmsync-core/src/protocol.rs:1158-1171 | A control message in place |
| FrameEncoders.EncodeEvent | crates/kmsync-core/src/protocol.rs:107-116 | The first wire format, written into a 32-byte buffer that always suffices |
| FrameEncoders.DecodeClipboardFiles | crates/kmsync-core/src/protocol.rs:1082-1126 | The entry loop computes the recursive reading of the list, errors included |
| FrameLaws.DecodeOfEncode | crates/kmsync-core/src/protocol.rs:734-760 | The parser sees exactly the payload bytes that the header announces, whatever follows |
| FrameLaws.TrailingBytesIgnored | crates/kmsync-core/src/protocol.rs:734-760 | Bytes after an encoded frame never change what it decodes to |
| FrameLaws.StrictPrefixTooShort | crates/kmsync-core/src/protocol.rs:734-760 | Every strict prefix of an encoded frame decodes to TooShort |
| FrameLaws.EventRoundTrip | crates/kmsync-core/src/protocol.rs:1350-1442 | Every input event is read back as written |
| FrameLaws.LegacyRoundTrip | crates/kmsync-core/src/protocol.rs:105-138 | Every event of the first wire format is read back by its own decoder |
| FrameLaws.LegacyDecodesExactly | crates/kmsync-core/src/protocol.rs:734-745 | The frame parser reads every event of the first wire format except button events, which it calls too short |
| FrameLaws.LegacyTextDecodes | crates/kmsync-core/src/protocol.rs:780-784 | A frame of payload type 10, for every text, comes back as plain text of source 0 and version 0 with that text, whatever follows it |
| FrameLaws.LegacyEventDecodes | crates/kmsync-core/src/protocol.rs:758-759 | A frame of payload type 0 that holds a first-format event comes back as that event, with ids and version 0 and the unreliable channel for pointer movements only |
| FrameLaws.UnknownPayloadsAreRefused | crates/kmsync-core/src/protocol.rs:861-861 | Every other payload type is refused by its number |
| DecoderLaws.EventDecodesExactly | crates/kmsync-core/src/protocol.rs:1350-1442 | Bytes parse to an event if and only if they begin with it, the unused bits of the modifiers aside |
| DecoderLaws.InputDecodesExactly | crates/kmsync-core/src/protocol.rs:760-779 | Bytes parse to an input envelope if and only if they are its fields and then begin with its event |
| DecoderLaws.ControlDecodesExactly | crates/kmsync-core/src/protocol.rs:1182-1312 | Bytes parse to a control message if and only if they begin with it, the unused bits of the flags aside |
| DecoderLaws.ChunkDecodesExactly | crates/kmsync-core/src/protocol.rs:1128-1147 | Bytes parse to a file chunk if and only if they are that chunk written out |
| DecoderLaws.PlainDecodesExactly | crates/kmsync-core/src/protocol.rs:786-797 | A plain text payload parses if and only if what follows its metadata is UTF-8; the hash sent along is not looked at |
| DecoderLaws.InvalidTextIsRefused | crates/kmsync-core/src/protocol.rs:780-797 | Text that is not UTF-8 is refused as such |
| DecoderLaws.LegacyParsesExactly | crates/kmsync-core/src/protocol.rs:118-138 | Bytes parse as an event of the first format if and only if they begin with its magic, its numbers and its event |
| DecoderLaws.UnknownMagicIsRefused | crates/kmsync-core/src/protocol.rs:738-744 | Bytes long enough for a header that begin with neither magic are refused as such |
| DecoderLaws.EventCutIsTooShort | crates/kmsync-core/src/protocol.rs:1350-1442 | An event cut short anywhere is too short |
| DecoderLaws.ControlCutIsTooShort | crates/kmsync-core/src/protocol.rs:1182-1312 | So is a control message |
| DecoderLaws.ChunkCutIsTooShort | crates/kmsync-core/src/protocol.rs:1128-1131 | So is the metadata of a file chunk |
| DecoderLaws.TextualCutIsTooShort | crates/kmsync-core/src/protocol.rs:799-822 | So is text with a format or markup |
| DecoderLaws.FilesCutIsTooShort | crates/kmsync-core/src/protocol.rs:1082-1126 | So is a file list, within an entry or between two |
| DecoderLaws.HashesAreSent | crates/kmsync-core/src/protocol.rs:888-952 | The content hash goes along on the wire, although it is computed anew on arrival |
| ContentHashes.KnownHashes | crates/kmsync-core/src/protocol.rs:578-583 | The hash is FNV-1a: its published values for "" and "a" |
| ContentHashes.ContentHashExactly | crates/kmsync-core/src/protocol.rs:520-564 | A text is hashed over one byte string: the text alone, or format, text, the byte 0xff and markup |
| ContentHashes.ContentInputTells | crates/kmsync-core/src/protocol.rs:546-564 | Format, text and markup are told from that byte string, but for markup that is empty |
| ContentHashes.ImageHashExactly | crates/kmsync-core/src/protocol.rs:566-576 | An image is hashed over its format, width, height and pixels |
| ContentHashes.ImageInputTells | crates/kmsync-core/src/protocol.rs:566-576 | Width, height and pixels are told from those bytes |
| ContentHashes.FilesHashExactly | crates/kmsync-core/src/protocol.rs:530-544 | A file list is hashed over the byte 5 and then name, 0xff, length and hash of each file |
| ContentHashes.FilesInputTells | crates/kmsync-core/src/protocol.rs:530-544 | A file list is told from its hashed bytes, for lists of any length and names |
| FrameLaws.InputRoundTrip | crates/kmsync-core/src/protocol.rs:760-780 | Every input envelope is read back as written |
| FrameLaws.ChunkRoundTrip | crates/kmsync-core/src/protocol.rs:1061-1147 | Every file chunk is read back as written |
| FrameLaws.ControlRoundTrip | crates/kmsync-core/src/protocol.rs:1182-1312 | Every control message is read back as written |
| FrameLaws.ClipboardRoundTrip | crates/kmsync-core/src/protocol.rs:786-850 | Clipboard content is read back as written if and only if a constructor builds it and an image has at least width plus height bytes |
| FrameLaws.FilesDecode | crates/kmsync-core/src/protocol.rs:1023-1126 | A list that fits is read back with every name sanitised; one that does not fit is never read back |
| FrameLaws.OverlongNameLost | crates/kmsync-core/src/protocol.rs:1023-1126 | A list with a name over 65535 bytes is never read back |
| FrameLaws.FilesRoundTrip | crates/kmsync-core/src/protocol.rs:1023-1126 | A file list is read back as written if and only if its hash is its own, its count and names fit and its names are fixed points |
| FrameLaws.RgbaImageFits | crates/kmsync-core/src/protocol.rs:816-822 | Every image with four bytes a pixel and both sides at least one meets the decoder's length check |
| FrameLaws.RoundTripExactly | crates/kmsync-core/src/protocol.rs:690-870 | Decoding an encoded frame gives the frame if and only if it is representable, over all five payload kinds |
| FrameLaws.DecodedPayload | crates/kmsync-core/src/protocol.rs:734-870 | Whatever decodes, by any path, carries recomputed hashes, images that fit and base names |
| FrameLaws.DecodedReencodes | crates/kmsync-core/src/protocol.rs:1333-1348 | Sending on a decoded frame delivers it with file names sanitised once more |
| FrameLaws.DecodeNormalises | crates/kmsync-core/src/protocol.rs:734-870 | For every byte string that decodes, one more trip settles file names and changes nothing else, and the settled frame never changes again |
| ContentHashes.ConstructorsHash | crates/kmsync-core/src/protocol.rs:251-343 | Every constructor of clipboard content keeps what it is given and puts the hash of exactly that beside it |
| Replay.BitOfShl | crates/kmsync/src/transport.rs:771-798 | What a left shift of the bitmap does to each bit |
| Replay.BitOfSetBit | crates/kmsync/src/transport.rs:771-798 | What setting a bit does to each bit |
| Replay.AdvanceRepresents | crates/kmsync/src/transport.rs:771-798 | After a jump of any size, 128 and more included, bit i still means that highest minus i was accepted |
| Replay.MarkRepresents | crates/kmsync/src/transport.rs:771-798 | Marking a late number keeps the meaning of every bit |
| Replay.ReplayWindow.Accept | crates/kmsync/src/transport.rs:771-798 | A call succeeds if and only if the number is new and less than the window below everything accepted; TooOld says which of the two failed; a failed call changes nothing |
| Replay.ReplayGuard.constructor | crates/kmsync/src/transport.rs:748-755 | The window is clamped to 1..128 |
| Replay.ClampedExactly | crates/kmsync/src/transport.rs:748-755 | A window from 1 to 128 is used as it is, 0 becomes 1 and anything larger 128 |
| Replay.ReplayGuard.Accept | crates/kmsync/src/transport.rs:756-763 | The guard over all epochs decides as a set of accepted (epoch, sequence) pairs would |
| Replay.AcceptAll | crates/kmsync/src/transport.rs:743-798 | Over every sequence of calls, for every configured window, the bitmap decides each call as the plain set does with the clamped window |
| Replay.NeverTwice | crates/kmsync/src/transport.rs:743-798 | In no sequence of calls is the same pair accepted twice |
| DataPlane.ParseOfHeader | crates/kmsync/src/transport.rs:695-727 | A header is parsed as written and split from the ciphertext |
| DataPlane.HeaderParsesExactly | crates/kmsync/src/transport.rs:695-727 | Bytes parse to a header if and only if they begin with it as it is written |
| DataPlane.WrongHeaderIsNamed | crates/kmsync/src/transport.rs:709-727 | A wrong version or lane byte is reported as such, the version first |
| DataPlane.NonceIsInjective | crates/kmsync/src/transport.rs:733-740 | Different (epoch, sequence) pairs give different nonces |
| DataPlane.NonceLayout | crates/kmsync/src/transport.rs:733-740 | The nonce is the epoch and then the sequence, in little-endian order |
| DataPlane.SequenceAfter | crates/kmsync/src/transport.rs:589-600 | The sequence counter after any number of calls, up to where it saturates |
| DataPlane.CountersAfter | crates/kmsync/src/transport.rs:589-600 | The number of calls is epoch times rotation plus frames in the epoch, over every run |
| DataPlane.SequenceOfCall | crates/kmsync/src/transport.rs:589-617 | Below 2^32 frames an epoch, the sequence of a successful call has not saturated |
| DataPlane.NumberOfCall | crates/kmsync/src/transport.rs:589-600 | Call n uses epoch n / rotationFrames and sequence n + 1, for every setting (0 counts as 1) and every n, up to where the counters saturate |
| DataPlane.CallsOfOneEpoch | crates/kmsync/src/transport.rs:589-600 | Two calls of one epoch are less than the rotation apart |
| DataPlane.LongEpochsRepeat | crates/kmsync/src/transport.rs:589-617 | With 2^32 or more frames an epoch, two successful calls use one (epoch, sequence) pair |
| DataPlane.NumbersNeverRepeatExactly | crates/kmsync/src/transport.rs:589-617 | No two successful calls of one sealer, however long it runs, share a pair, if and only if the rotation is below 2^32 |
| SecureChannel.DataPlaneSealer.SealFrame | crates/kmsync/src/transport.rs:589-617 | Call n returns the envelope of its closed-form number, or fails when the epoch no longer fits; the counters move on either way |
| SecureChannel.SealedExactly | crates/kmsync/src/transport.rs:589-617 | In terms of the settings alone: the key of epoch n / rotationFrames, the nonce of that epoch and n + 1, the header authenticated; failure if and only if that epoch is over 32 bits |
| SecureChannel.DataPlaneOpener.OpenFrame | crates/kmsync/src/transport.rs:645-686 | A frame is returned if and only if every check and the guard accept it; only then is its number recorded |
| SecureChannel.SealAll | crates/kmsync/src/transport.rs:589-617 | A whole run of a sealer, call by call |
| SecureChannel.OpenAll | crates/kmsync/src/transport.rs:645-686 | A whole run of an opener over arbitrary deliveries, delivery by delivery |
| SecureChannel.InspectOfSealed | crates/kmsync/src/transport.rs:645-680 | On its own lane a sealed frame passes every check as itself; on another lane it is refused |
| SecureChannel.SealedIsRefusedExactly | crates/kmsync/src/transport.rs:645-680 | Any sealed frame that survives the codec is refused for a wrong lane, then for a payload of another lane, then if it concerns a revoked device, and else passes as itself |
| SecureChannel.UnreadableIsNamed | crates/kmsync/src/transport.rs:645-669 | An epoch that does not fit, a ciphertext that does not open and a frame that does not parse are reported as such, in this order |
| SecureChannel.NothingRevokedIsReturned | crates/kmsync/src/transport.rs:800-830 | Whatever bytes are delivered, no frame that comes from or is meant for a revoked device is returned, and none on a lane not its own |
| SecureChannel.ReturnsOnlyWhatWasSent | crates/kmsync/src/transport.rs:589-686 | Under loss, reordering, duplication and forgery, whatever is returned was sent, unchanged, on that lane |
| SecureChannel.OpensAtMostOnce | crates/kmsync/src/transport.rs:645-686 | No envelope is opened twice |
| SecureChannel.ReturnsSentFrameExactly | crates/kmsync/src/transport.rs:645-686 | A sealed frame that arrives is returned if and only if no frame opened before in its epoch repeats it or is the window or more above it |
| SecureChannel.ReturnsUnlessOvertaken | crates/kmsync/src/transport.rs:645-686 | A sealed frame that arrives for the first time is lost if and only if a frame of its epoch at least the window above it was opened before, whatever lanes the two came on |
| SecureChannel.OvertakenFrameIsLost | crates/kmsync/src/transport.rs:771-798 | A frame delivered after one of its epoch at least the window above it is lost |
| SecureChannel.ShortEpochsLoseNothing | crates/kmsync/src/transport.rs:589-686 | With epochs no longer than the window, every frame that arrives on its lane for the first time is returned, in every run |
| SecureChannel.LongEpochsLoseAFrame | crates/kmsync/src/transport.rs:589-686 | With longer epochs, for any ideal cipher and any two frames that can be sent, a run of the channel in which the first of them arrives for the first time and is lost |
| SecureChannel.NothingIsOvertakenExactly | crates/kmsync/src/transport.rs:589-686 | No frame that arrives on its lane for the first time is lost, in any run, if and only if the rotation is no greater than the clamped window |
| SecureChannel.ShippedSettingsLoseAFrame | crates/kmsync/src/transport.rs:31-32 | Under the default rotation and window, a concrete run of 65 heartbeats in which the first is delivered after the last and is lost |
| SecureChannel.FailedOpenLeavesNoTrace | crates/kmsync/src/transport.rs:645-686 | Without a failed delivery every other delivery has the same outcome |
| SecureChannel.InOrderRunDeliversAll | crates/kmsync/src/transport.rs:589-686 | Whichever calls of the sealer are delivered, once each and in order, every one of their frames is returned |
| StreamFraming.LaneStream.Send | crates/kmsync/src/transport.rs:131-165 | The stream holds the lane byte and one block for each frame sent |
| StreamFraming.LaneStream.constructor | crates/kmsync/src/transport.rs:188-201 | A new stream holds the lane byte alone |
| StreamFraming.ReadLaneStream | crates/kmsync/src/transport.rs:397-457 | The reader loop ends and computes the recursive reading of the stream, errors included |
| StreamFraming.ReadableStops | crates/kmsync/src/transport.rs:425-440 | Reading stops at the first frame over the limit, with all frames before it passed on |
| StreamFraming.StreamRoundTripExactly | crates/kmsync/src/transport.rs:397-457 | Lane and frames are read back exactly as written if and only if no frame is over 16 MiB |
| StreamFraming.CutStreamReadsPrefix | crates/kmsync/src/transport.rs:397-457 | However the stream is cut, what is read is a prefix of the frames written |
| StreamFraming.StreamDeliversEveryFrame | crates/kmsync/src/transport.rs:397-468 | Whatever calls of one sealer went to a lane, codec, cipher, replay guard and framing together return every frame of its stream, in order and unchanged, when that stream alone is opened |
| StreamFraming.LanesLoseOvertakenFramesOnly | crates/kmsync/src/transport.rs:348-468 | One sealer, three streams and the datagrams, one opener: in every interleaving of what arrives, a frame from a stream is lost if and only if a frame of its epoch at least the window above it was opened before; otherwise it is returned unchanged |
| StreamFraming.LanesLoseNothingExactly | crates/kmsync/src/transport.rs:348-468 | No frame from a stream is lost, in any interleaving of streams and datagrams, if and only if the rotation is no greater than the clamped window; else a datagram sealed a window later overtakes a frame on any stream |
| StreamFraming.ArrivesOnce | crates/kmsync/src/transport.rs:397-457 | In every interleaving no delivery before a frame from a stream has the same bytes |
| InputState.RemoteInputState.Apply | crates/kmsync-core/src/input_state.rs:21-32 | The two arrays hold what the run of events leaves pressed |
| InputState.RemoteInputState.ReleaseAll | crates/kmsync-core/src/input_state.rs:34-65 | Exactly one release for each held key and button, nothing held afterwards, and playing the releases leaves nothing held |
| InputState.ReplayOfReleases | crates/kmsync-core/src/input_state.rs:34-65 | After a run of releases a key is held if and only if it was held and not released |
| InputState.HeldExactly | crates/kmsync-core/src/input_state.rs:21-32 | After any run of events a key or a button is held if and only if the last event about it pressed it |
| InputState.ReleasesLeaveAllUp | crates/kmsync-core/src/input_state.rs:34-65 | Playing one release for each thing held leaves nothing held |
| Keymap.Compile | crates/kmsync-core/src/keymap.rs:129-160 | Compiling succeeds if and only if no source key has two mappings; the table then maps each key as the profile says; the error names the first repeated key |
| Keymap.FollowsRun | crates/kmsync-core/src/keymap.rs:163-230 | While shortcuts agree, every held target key comes from a held source key, in every run |
| Keymap.UnstableKeySticks | crates/kmsync-core/src/keymap.rs:212-230 | A key whose target depends on the modifiers can be left stuck |
| Keymap.NeverSticksExactly | crates/kmsync-core/src/keymap.rs:163-230 | No run that ends all up leaves anything held on the target, if and only if the shortcuts agree with the table |
| Keymap.PhysicalNeverSticks | crates/kmsync-core/src/keymap.rs:163-230 | In physical mode nothing sticks, with any table and either function row |
| Keymap.MacTextModeSticks | crates/kmsync-core/src/keymap.rs:99-104 | From macOS to another system in text mode, with any table, some run that ends all up leaves a key held on the target |
| Keymap.ShortcutIsRecognisedExactly | crates/kmsync-core/src/keymap.rs:25-112 | On either kind of system a chord stands for an action if and only if it is the chord made for that action |
| Keymap.ShortcutRoundTrip | crates/kmsync-core/src/keymap.rs:212-217 | In text mode a shortcut means the same action on the other system, and comes back as the chord it was |
| Keymap.ModifiersRoundTrip | crates/kmsync-core/src/keymap.rs:192-210 | Tables that permute control, alt and meta in opposite ways undo each other on every set of held modifiers |
| Keymap.MediaKeysExactly | crates/kmsync-core/src/keymap.rs:267-279 | Which keys of the function row become which media keys, and that no others do |
| Keymap.ModifierForKeyExactly | crates/kmsync-core/src/keymap.rs:256-264 | A key stands for the modifier of its kind, on either side |
| Keymap.HeldModifiersExactly | crates/kmsync-core/src/keymap.rs:190-209 | Shift stays shift; each other modifier is held on the target if and only if a held one's left key is mapped to a key of its kind |
| Keymap.KeyGoesWhere | crates/kmsync-core/src/keymap.rs:211-230 | Without a shortcut a key goes to its media key in media mode and else where the table says, with the modifiers mapped, whatever is held |
| Keymap.PointerEventsScale | crates/kmsync-core/src/keymap.rs:163-178 | Each scroll axis is scaled by its own factor and movement by one; clicks and positions stay |
| LanAddresses.AddressesMatchExactly | crates/kmsync/src/desktop_state.rs:354-360 | Sorted and freed of repeats, two address lists are the same if and only if they hold the same addresses |
| PeerKeys.KeyIgnoresAddressOrder | crates/kmsync/src/desktop_state.rs:351-372 | A device keeps its key when its LAN addresses are listed in another order or repeated |
| PeerKeys.KeysWithoutAddressMatchExactly | crates/kmsync/src/desktop_state.rs:351-372 | Devices that present no address share a key if and only if they share a public key or, without one, an id; they never share one with a device that presents an address |
| PeerKeys.KeysMatchExactly | crates/kmsync/src/desktop_state.rs:351-372 | As long as no name or system holds a bar and no LAN address a comma, equal keys mean equal name, system and address set or endpoint, and the other way round |
| PeerKeys.JoinedIsInjective | crates/kmsync/src/desktop_state.rs:358-359 | Lists of addresses without commas are determined by their joined text |
| PeerKeys.SplitOfJoined | crates/kmsync/src/desktop_state.rs:358-359 | Splitting the joined text of such a list at all its commas gives the list |
| PeerKeys.CommasRunTogether | crates/kmsync/src/desktop_state.rs:358-359 | A comma in an address makes one address look like two |
| PeerKeys.BarsRunTogether | crates/kmsync/src/desktop_state.rs:352-360 | A bar in a name moves the border between name and system: two devices of different names have one key |
| PeerKeys.TakenForAnotherExactly | crates/kmsync/src/desktop_state.rs:351-372 | A device with LAN addresses and without bars has the key of a different device without separators if and only if its joined list, split at all commas, is strictly rising and is not the list itself |
| PeerIndex.BetterIsTransitive | crates/kmsync/src/desktop_state.rs:374-412 | The order of candidates is transitive |
| PeerIndex.BetterIsTotal | crates/kmsync/src/desktop_state.rs:374-412 | Of two devices with different ids one is better |
| PeerIndex.SelectPeers | crates/kmsync/src/desktop_state.rs:253-270 | The loop selects one peer for each key, and no peer of its key is better |
| PeerIndex.WinnerIsPreferred | crates/kmsync/src/desktop_state.rs:374-412 | The record shown is online if any of its machine is, then reachable by relay, then seen last, then of the highest id, on the fields of the records |
| PeerIndex.SelectionShowsPreferred | crates/kmsync/src/desktop_state.rs:253-270 | Every enabled other machine is shown once, by the record preferred to all its others |
| PeerIndex.WinnerIsGreatest | crates/kmsync/src/desktop_state.rs:374-412 | A key has one winner, strictly better than every other peer of the key |
| PeerIndex.SelectionIgnoresOrder | crates/kmsync/src/desktop_state.rs:248-299 | Every ordering of the devices selects the same peers |
| PeerIndex.CanonicalIds | crates/kmsync/src/desktop_state.rs:271-289 | An id stands for the winner of its key if it is the winner or the winner can be reached, and for nothing otherwise |
| PeerIndex.CanonicalizeTargets | crates/kmsync/src/desktop_state.rs:301-328 | The four slots are replaced independently |
| PeerIndex.TargetFollowsWinner | crates/kmsync/src/desktop_state.rs:314-328 | A slot moves to the winner of its peer's own key, and only if the winner can be reached |
| PeerIndex.SlotMovesExactly | crates/kmsync/src/desktop_state.rs:271-293 | A slot moves to the record shown of its machine if and only if that one is online or reachable by relay, on the fields of the record |
| PeerIndex.OtherTargetsStay | crates/kmsync/src/desktop_state.rs:314-328 | A slot that holds no peer stays |
| PeerIndex.CanonicalLayoutIsStable | crates/kmsync/src/desktop_state.rs:301-328 | Canonicalising a layout twice is canonicalising it once |
| PeerIndex.SlotsMergeExactly | crates/kmsync/src/desktop_state.rs:301-328 | Slots of two peers come to hold one device if and only if the peers share a winner that can be reached |
| StoreService.ServerStore.DecideDeletedKey | crates/kmsync-server/src/main.rs:1257-1278 | The decision of the loop is the same whatever order the set is walked in |
| StoreService.ServerStore.RegisterDevice | crates/kmsync-server/src/main.rs:1168-1255 | The store and the reply after a registration, whichever device the search by key turns up |
| StoreService.ServerStore.UpdateDevice | crates/kmsync-server/src/main.rs:1340-1390 | The store, the event and the reply after an update, with both version counters |
| StoreService.ServerStore.ReauthorizeDevice | crates/kmsync-server/src/main.rs:1397-1429 | The store, the event and the reply after a new key is set |
| StoreService.ServerStore.DeleteDevice | crates/kmsync-server/src/main.rs:1442-1526 | The store and the events after a deletion; each deleted device is published once, in some order |
| StoreService.ServerStore.GatherDeleted | crates/kmsync-server/src/main.rs:1476-1490 | The loop gathers one tombstone for each deleted device and, for a whole machine, what it presented |
| StoreService.ServerStore.ClearTopologies | crates/kmsync-server/src/main.rs:1494-1511 | Every topology is cleared of the deleted devices, one by one |
| StoreService.ServerStore.Heartbeat | crates/kmsync-server/src/main.rs:1731-1818 | The store, the event and the reply after a heartbeat, eviction included |
| StoreService.ServerStore.MarkDeviceOffline | crates/kmsync-server/src/main.rs:1820-1861 | The store, the event and the reply after a device goes offline |
| StoreService.ServerStore.UpsertTopology | crates/kmsync-server/src/main.rs:1891-1924 | A topology is stored if and only if the user owns every device it names |
| StoreService.ServerStore.UpsertProfile | crates/kmsync-server/src/main.rs:1981-2027 | The store, the history, the event and the reply after an upsert |
| StoreService.ServerStore.RollbackProfile | crates/kmsync-server/src/main.rs:2035-2082 | The store, the history, the event and the reply after a rollback |
| StoreService.ServerStore.FindVersion | crates/kmsync-server/src/main.rs:2084-2098 | The search through the history computes the first entry of the version |
| StoreService.ServerStore.ListProfileChanges | crates/kmsync-server/src/main.rs:1960-1979 | Each profile of the user changed after the cursor once, ordered by revision, and the cursor to ask with next |
| RequestEffects.RegisterStoresNew | crates/kmsync-server/src/main.rs:1223-1240 | A new device is stored with what its registration says, enabled, at versions 1 |
| RequestEffects.RegisterStoresAgain | crates/kmsync-server/src/main.rs:1200-1222 | A known device takes role, system and versions from its registration; name, switch and key stay |
| RequestEffects.RegisterKeepsTheRest | crates/kmsync-server/src/main.rs:1168-1255 | A registration touches nothing but devices and what is remembered of deleted ones, and nothing when refused |
| RequestEffects.RegisterIsRefusedExactly | crates/kmsync-server/src/main.rs:1173-1210 | Which registrations are refused, in which order and with which error, and the id of the others |
| RequestEffects.RegisterDropsKeysExactly | crates/kmsync-server/src/main.rs:1241-1245 | A registration drops the tombstones of its key that name its device or none |
| RequestEffects.UpdateStores | crates/kmsync-server/src/main.rs:1347-1390 | An update stores the name and the switch it names; versions and event follow exactly what changed |
| RequestEffects.UpdateIsRefusedExactly | crates/kmsync-server/src/main.rs:1347-1360 | Which updates are refused, and with which error |
| RequestEffects.ReauthorizeStores | crates/kmsync-server/src/main.rs:1415-1428 | Reauthorizing sets the key, enables the device and changes nothing else of it |
| RequestEffects.ReauthorizeIsRefusedExactly | crates/kmsync-server/src/main.rs:1402-1413 | Which reauthorizations are refused, and with which error |
| RequestEffects.HeartbeatStores | crates/kmsync-server/src/main.rs:1765-1803 | A heartbeat that gets through stores its addresses, port, NAT type, display and caller, now, under the version it replies; every other presence stays |
| RequestEffects.HeartbeatPublishesExactly | crates/kmsync-server/src/main.rs:1768-1812 | It moves the version up and publishes it, unless the device was online and says the same again |
| RequestEffects.OfflineStores | crates/kmsync-server/src/main.rs:1819-1861 | Going offline takes effect at once under the next version, keeps what was reported, and is published if the device was online |
| RequestEffects.OfflineChangesNothing | crates/kmsync-server/src/main.rs:1819-1841 | Without a presence, or for a device of somebody else, nothing changes |
| RequestEffects.DeletionIsRefusedExactly | crates/kmsync-server/src/main.rs:1442-1449 | A deletion is refused if and only if the device is not the user's, and then changes nothing |
| RequestEffects.DeletionPublishesExactly | crates/kmsync-server/src/main.rs:1466-1524 | A deletion publishes for each deleted device that it is offline, under the version after its last |
| RequestEffects.DeletionRecordsExactly | crates/kmsync-server/src/main.rs:1476-1481 | A deletion records the key of each deleted device under its id, and forgets none |
| RequestEffects.DeletionStampsTopologies | crates/kmsync-server/src/main.rs:1490-1511 | A topology that named a deleted device takes the next version and the time; any other stays |
| RequestEffects.TopologyStoresExactly | crates/kmsync-server/src/main.rs:1891-1924 | A layout is stored slot by slot under the next version if every device it names is the user's, and refused otherwise |
| RequestEffects.UpsertStoresExactly | crates/kmsync-server/src/main.rs:1981-2027 | An upsert stores its configuration under the next version and revision and keeps the record it replaces; or is refused for a foreign device or a stale version |
| RequestEffects.RollbackStoresExactly | crates/kmsync-server/src/main.rs:2035-2098 | A rollback stores the configuration of the version it names, and is refused if and only if the user has no such version |
| LastWrites.PresenceIsTheLastReport | crates/kmsync-server/src/main.rs:1731-1861 | Over any run a presence tells exactly what the last heartbeat of its device that got through reported |
| LastWrites.LayoutIsTheLastPut | crates/kmsync-server/src/main.rs:1891-1924 | Over any run each slot of a layout holds what was put there last, unless that device has been deleted since |
| LastWrites.SettingsAreTheLastSet | crates/kmsync-server/src/main.rs:1340-1429 | Over any run a device has the name and the switch that were set last; registering again sets neither |
| LastWrites.DisabledStaysRefused | crates/kmsync-server/src/main.rs:1736-1742 | A disabled device is refused over any run that neither enables, reauthorizes nor deletes it |
| KeyLifecycle.TombstoneDecides | crates/kmsync-server/src/main.rs:1257-1278 | A tombstone blocks every registration of its key but the one under its own id |
| KeyLifecycle.RegistrationIgnoresTheSearch | crates/kmsync-server/src/main.rs:1191-1199 | While keys are unique, it does not matter which device the search by key turns up |
| KeyLifecycle.KeysStayUnique | crates/kmsync-server/src/main.rs:1168-1278 | In every run without reauthorizations a user's key has one live device or one tombstone, never both, and every tombstone names its device, whichever holder each search by key turns up |
| KeyLifecycle.KeysStayUniqueExactly | crates/kmsync-server/src/main.rs:1397-1429 | In a run of any requests from the empty store, keys are unique after every step if and only if no successful reauthorization takes a key that another device of the user holds or a tombstone has |
| KeyLifecycle.DeleteKeepsKeys | crates/kmsync-server/src/main.rs:1476-1493 | Deleting a group turns live keys into tombstones one for one |
| KeyLifecycle.DeletedKeyReturnsUnderItsOwnId | crates/kmsync-server/src/main.rs:1168-1278 | In every run without a registration of it under its own id and without a reauthorization that takes a key in use, a deleted key stays deleted and nobody lives under it |
| KeyLifecycle.DeletedKeyReturns | crates/kmsync-server/src/main.rs:1168-1255 | A registration of a deleted key succeeds if and only if it asks for the original id, the id is free and the name is not blank |
| KeyLifecycle.ReauthorizeKeepsKeysExactly | crates/kmsync-server/src/main.rs:1397-1429 | Keys stay unique if and only if no other device of the user has the new key and no tombstone has it |
| Counterexamples.ReauthorizingDuplicatesAKey | crates/kmsync-server/src/main.rs:1397-1429 | A run from the empty store after which two devices have one key |
| GroupedDeletion.DeletedExactly | crates/kmsync-server/src/main.rs:1528-1592 | Which devices a deletion takes, in both directions |
| GroupedDeletion.OfflineDeletionSparesOnline | crates/kmsync-server/src/main.rs:1528-1562 | Deleting a device that is offline leaves every online device and its presence as they were |
| GroupedDeletion.DeletionLeavesNoTrace | crates/kmsync-server/src/main.rs:1490-1515 | Afterwards no device, presence, topology or profile names a deleted id |
| GroupedDeletion.DeletionKeepsTheRest | crates/kmsync-server/src/main.rs:1490-1515 | Everything else is unchanged, and a topology's version rises if and only if a slot or the master was cleared |
| GroupedDeletion.SharingIsSymmetric | crates/kmsync-server/src/main.rs:1594-1641 | Sharing a presented identity is symmetric |
| GroupedDeletion.SharesExactly | crates/kmsync-server/src/main.rs:1594-1641 | Records stand for one machine by their trimmed key, or by name and system with a LAN address in common or, without any, one public address and port |
| Counterexamples.SharingIsNotTransitive | crates/kmsync-server/src/main.rs:1594-1641 | A run from the empty store that leads to three devices with names and keys of their own, of which the first is like the second and the second like the third only |
| SharedIdentity.SharingClosesExactly | crates/kmsync-server/src/main.rs:1594-1641 | With keys that differ in more than white space, whatever shares an identity with a record shares it with all else that does, in every plausible store, if and only if the record shows at most one LAN address |
| SharedIdentity.SharingClosesWithAnyKeysExactly | crates/kmsync-server/src/main.rs:1594-1641 | With any keys, if and only if the record can be recognised in one way only: by its key, by one address or by its endpoint |
| SharedIdentity.TwoAddressesDoNotClose | crates/kmsync-server/src/main.rs:1636-1641 | Two distinct addresses of a record are enough for a store in which sharing does not close through it |
| SharedIdentity.RunIsPlausible | crates/kmsync-server/src/main.rs:1168-1255 | What the two results assume of a store holds in every run in which no reauthorization takes a key in use: unique keys, presences of live devices, names that are not blank |
| SharedIdentity.DeletionWhereSharingCloses | crates/kmsync-server/src/main.rs:1528-1592 | Where sharing closes through two records that share an identity, deleting either, when both are as online, takes the same records |
| SharedIdentity.DeletionIgnoresTheMember | crates/kmsync-server/src/main.rs:1528-1592 | The same for records that show at most one LAN address while keys differ in more than white space, or that can be recognised in one way only |
| LiveReferences.ReferencesStayLiveExactly | crates/kmsync-server/src/main.rs:1442-1526 | Presences, topologies and profiles name live devices of their own user throughout a run if and only if no eviction in it hits a device that a topology or a profile names |
| LiveReferences.EvictionKeepsReferencesExactly | crates/kmsync-server/src/main.rs:1750-1762 | An eviction leaves nothing dangling if and only if no topology and no profile named the device |
| Counterexamples.EvictingLeavesATopologyDangling | crates/kmsync-server/src/main.rs:1750-1763 | A run from the empty store after which a topology names a device that a heartbeat has taken away |
| PresenceVersions.RunKeepsPresence | crates/kmsync-server/src/main.rs:1731-1861 | In every run, evictions included, a presence belongs to a live device of the same user |
| PresenceVersions.PublishedVersionsRise | crates/kmsync-server/src/main.rs:1466-1524 | While a device is registered, and with its deletion, the versions published for it rise strictly up to the largest u64 |
| PresenceVersions.ChangeIsALaterVersion | crates/kmsync-server/src/main.rs:1764-1806 | Across any run, a change of addresses, port, NAT type or display is a later version |
| PresenceVersions.VersionsForDeleted | crates/kmsync-server/src/main.rs:1517-1524 | A deletion publishes one version for each deleted device, whatever the order |
| PresenceVersions.OnlineUntilExactly | crates/kmsync-server/src/main.rs:1322-1332 | A heartbeat keeps a device online for exactly the time to live, and going offline takes effect at once |
| RecordVersions.DeviceChangeIsALaterVersion | crates/kmsync-server/src/main.rs:1200-1240 | Across any run in which a device stays registered, any change to its record is a later device version, and of its name a later name version |
| RecordVersions.TopologyChangeIsALaterVersion | crates/kmsync-server/src/main.rs:1494-1511 | Across any run, any change to a topology, by its user or by a deletion, is a later version |
| DeletedMachines.ForgottenExactly | crates/kmsync-server/src/main.rs:1246-1252 | What a deletion remembered is forgotten by a step if and only if the step is a registration that succeeds under the same user, name and system with a deleted key |
| DeletedMachines.FreshKeysForgiveNothing | crates/kmsync-server/src/main.rs:1257-1278 | A registration with a key that was not deleted forgets nothing, whatever its name |
| DeletedMachines.ForgivingReturnsADeletedKey | crates/kmsync-server/src/main.rs:1168-1278 | While keys are unique, only the registration of a deleted key under its own id forgets |
| DeletedMachines.RememberedIsRefused | crates/kmsync-server/src/main.rs:1743-1763 | A heartbeat that shows anything remembered is refused, and an enabled device that sends it is taken away |
| DeletedMachines.SharedAddressShowsTheSame | crates/kmsync-server/src/main.rs:1672-1709 | Devices of one name and system with one LAN address in common, up to case and spaces, show the same thing |
| DeletedMachines.DeletedMachineStaysOut | crates/kmsync-server/src/main.rs:1750-1763 | After a whole machine was deleted, over any run in which no registration brings its kind back with a deleted key, no heartbeat that shows any of what it presented gets through |
| DeletedMachines.ExhibitsExactly | crates/kmsync-server/src/main.rs:1672-1709 | What a device exhibits: name and system with one of its LAN addresses or, if it has none, with its public address and port |
| DeletedMachines.DeletionRemembersExactly | crates/kmsync-server/src/main.rs:1476-1489 | A deletion of a whole machine remembers exactly what the deleted records exhibit; any other remembers nothing |
| DeletedMachines.HeartbeatIsRefusedExactly | crates/kmsync-server/src/main.rs:1736-1763 | A heartbeat is refused if and only if the device is not the user's, is disabled, or exhibits what is remembered; only in the last case it is taken away |
| DeletedMachines.SayTheSameExactly | crates/kmsync-server/src/main.rs:1672-1709 | Records exhibit something in common if and only if name and system agree and a LAN address or, without any on either side, public address and port |
| DeletedMachines.MachineStaysOut | crates/kmsync-server/src/main.rs:1750-1763 | After a whole machine was deleted, with or without LAN addresses, every heartbeat that says the same as one of its records is refused over any run that lets nothing of its name and system back |
| ProfileSync.RevisionsStayUnique | crates/kmsync-server/src/main.rs:2009-2020 | In every run stored revisions never pass the counter and are distinct below the largest u64 |
| ProfileSync.SyncStaysComplete | crates/kmsync-server/src/main.rs:1960-1979 | A copy that is complete at a cursor is complete again once the changes after the cursor are laid over it, whatever happened in between |
| ProfileSync.SyncIsExact | crates/kmsync-server/src/main.rs:1960-1979 | The synced copy holds every stored profile exactly, anything extra was dropped by a deletion, and it is the full state if and only if nothing was |
| ProfileSync.OnlyDeletionDrops | crates/kmsync-server/src/main.rs:1512-1515 | A profile disappears only in a deletion of one of its devices |
| ProfileSync.StoredProfileIsSeenExactly | crates/kmsync-server/src/main.rs:2009-2020 | A stored profile is in the feed from the cursor before it if and only if the counter can still move |
| ProfileEvents.HearingKeepsUp | crates/kmsync-server/src/main.rs:2009-2026 | A complete copy stays complete through every run by applying the profile events that the run publishes |
| ProfileEvents.HearingAgreesWithAsking | crates/kmsync-server/src/main.rs:1960-1979 | For every stored profile, following the events and asking for the changes give the same record |
| ProfileHistory.HistoryIsOrderly | crates/kmsync-server/src/main.rs:1981-2082 | In every run without deletions a profile at version v has the versions 1 to v - 1 as its history, in order |
| ProfileHistory.RunKeepsOrder | crates/kmsync-server/src/main.rs:1981-2082 | The same for one profile in every run that does not delete its devices |
| ProfileHistory.RollbackRestores | crates/kmsync-server/src/main.rs:2035-2082 | Once stored, a version can be rolled back to after any run that does not drop the profile: its configuration is stored again under the next version and revision |
| ProfileHistory.ExpectedVersionGuards | crates/kmsync-server/src/main.rs:1990-1998 | An upsert with a stale expected version changes nothing, and one with the current version goes through |
| ProfileHistory.HistoryIsLayered | crates/kmsync-server/src/main.rs:1981-2082 | With deletions, the history ends with the profile's own versions in order, and revisions rise through all of it |
| ProfileHistory.RollbackFindsOwnVersionsExactly | crates/kmsync-server/src/main.rs:2084-2098 | A rollback finds the profile's own versions if and only if the history holds nothing from before a deletion |
| ProfileHistory.DeletedVersionComesBack | crates/kmsync-server/src/main.rs:1512-1515 | A deletion drops a changed profile; after any further run in which its devices are back, two upserts and a rollback to version 1 bring back a configuration from before the deletion |
| Counterexamples.RollingBackRevivesADeletedProfile | crates/kmsync-server/src/main.rs:1512-1515 | A run from the empty store with a deletion, after which a rollback to version 1 stores the configuration of the deleted profile |
| ProfileHistory.HistoryGrows | crates/kmsync-server/src/main.rs:2002-2008 | No run takes anything out of a history |
| Relay.RelayHub.Register | crates/kmsync-server/src/main.rs:132-139 | A registration replaces the route of the device and opens an empty queue |
| Relay.RelayHub.UnregisterIfCurrent | crates/kmsync-server/src/main.rs:141-152 | A route is dropped only by the connection it leads to |
| Relay.RelayHub.Push | crates/kmsync-server/src/main.rs:154-164 | A frame is appended to one queue, or refused because the receiver is gone |
| Relay.RoutesToCurrent | crates/kmsync-server/src/main.rs:131-172 | In every interleaving a device is routed to a connection if and only if that was the last to register for it and has not unregistered |
| Relay.RxOnlineExactly | crates/kmsync-server/src/main.rs:166-171 | A device is online if and only if its latest registered connection has not unregistered |
| Relay.LateCloseIsHarmless | crates/kmsync-server/src/main.rs:1050-1054 | The late close of an older or a sending connection changes nothing |
| Relay.PendingHasFound | crates/kmsync-server/src/main.rs:154-164 | A send in flight holds the connection that was current when it looked |
| Relay.QueuesHoldTheDelivered | crates/kmsync-server/src/main.rs:131-172 | In every interleaving each queue holds exactly the frames handed over by sends that found its connection, once each and in order |
| Relay.PushReachesOneQueue | crates/kmsync-server/src/main.rs:154-164 | A frame handed over reaches the queue found for it and no other, and its send is over |

## Left out

- Cipher, key derivation, QUIC and TLS: foreign code. The cipher is a parameter taken as an ideal AEAD (section 2.8 of RFC 8439): it inverts itself, and nothing decrypts that the sealer did not make. The keys of the epochs are a parameter too. A failure of the encryption call itself, on plaintext longer than the cipher allows, is not modelled.
- Datagrams: the size limit, over which a sealed frame is refused after the counters have moved on, is not modelled as an error; such a call is one whose envelope is never delivered.
- HTTP routing, tokens, e-mail login, JSON, WebSocket plumbing, release checks and signalling: thin wrappers. The user, the clock, the caller's address and freshly drawn ids are parameters.
- File persistence: a write that fails after the store has changed is not modelled.
- `crates/kmsync-core/src/local_ipc.rs`, the user interface and the platform back ends are not part of this model.
- Floating point: an `f32` is its bit pattern, and scaling of pointer and scroll is an arbitrary function of two patterns.
- The `u128` bitmap is a number below 2^128 with bit test, shift and bit set defined by halving and doubling.
- Sums of lengths in `usize` are not wrapped in the growing encoder, whose output is in memory already.
- A key is its code. The display state of a presence and the configuration of a profile are compared only for equality and are kept as text.
- A record does not repeat the id it is stored under, and a profile id is the triple that its text form joins.
- The sort of the change feed is written as insertion by revision in place of the library's sort.
- `list_devices`, `list_profiles` and `get_topology` only read the store; a contract for them would repeat their bodies.
- EncodeInto: when a file name is too long for its length field, the code has written the entries before it; the contract then says nothing about the bytes after the first 20.
- KeysStayUnique: covers runs without `reauthorize_device`, which can hand out a key twice; KeysStayUniqueExactly covers all runs.
- HistoryIsOrderly: covers runs without deletions; HistoryIsLayered covers runs with them while the revision counter is below its maximum.
- SyncStaysComplete: covers runs in which the revision counter stays below its maximum; StoredProfileIsSeenExactly says what happens there.
- QueuesHoldTheDelivered: assumes that no connection registers twice, which fresh connection ids give.
- SelectionIgnoresOrder: assumes distinct device ids, which the server's map gives.
- KeysMatchExactly: covers devices whose name and system hold no bar and whose LAN addresses hold no comma; TakenForAnotherExactly says when a comma misleads, and for a bar there is the example BarsRunTogether only.
