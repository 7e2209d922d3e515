# Verified model of the local-transfer core

This project models the deterministic core of a local file-transfer program and
proves what it promises over whole runs: the trusted-peer store, the discovery
lifecycle and the browser state that feeds it, the pairing request phase, and the
first creation of the device identifier and display name. Check it with
`dafny verify dfyconfig.toml`.

Times are natural numbers supplied by the caller, texts are sequences of Unicode
scalar values, and files are optional byte strings behind a path.

## Structure

- `Results`, `Ordering`, `Bytes`, `Utf8`, `DisplayText`: result types, the
  lexicographic order with sorting, decimal and hexadecimal digits, section 3 of
  RFC 3629, and the validation that names and labels share.
- `TrustedPeerCodec`, `TrustedPeerLaws`, `TrustedPeerAcceptance`, `TrustedPeerMutation`:
  the file format, its laws, exactly what its reader accepts, and what `store` and
  `remove` compute from what they load.
- `TrustedPeerStore`, `TrustedPeerRuns`: the transaction as interleaved steps of
  any number of processes over a shared file and lock, and its safety;
  `TrustedPeerProgress` says that calls complete and what their failures mean, and
  `TrustedPeerExamples` has two concrete runs.
- `DiscoveredPeers`, `DiscoveredPeerLaws`, `DiscoveredPeerRefinement`: visible
  peers and tombstones updated in place, their laws, and simpler references that
  behave the same.
- `DiscoveryMetadata`, `DiscoveryLaws`, `Browser`, `DiscoveryRuns`: TXT metadata
  (sections 6.1 and 6.4 of RFC 6763), the coalescing browser map, and its
  agreement with the lifecycle over runs; `DiscoveryExamples` has a concrete session.
- `PairingWire`, `PairingMachines`, `PairingTraces`, `PairingEvents`, `PairingNetwork`:
  the wire codec, the two machines, their input traces, what each call returns, and
  their composition over a network that drops, duplicates, delays and reorders.
- `ConfigFile`, `ConfigProgress`, `DeviceIdentity`, `DeviceNameStore`: a file that
  several processes create without clobbering, how its calls complete, and its two uses.

## Where the code and its documentation differ

The model follows the code.

- A label may have 64 characters (docs/trust.md:265), and line 65 of
  trusted_peers.rs names a limit of 256 bytes, but line 903 compares that limit
  with the length of the hexadecimal form. A label over 128 bytes is written by
  `store` and refused by every later read. `TrustedPeerLaws.DecodeEncode` gives
  the exact boundary, `TrustedPeerRuns.LongLabelFreezesStore` the consequence, and
  `TrustedPeerExamples.LongLabelRun` a run that reaches it.
- `encode` is described as sorting; the sort is in `write_all` (line 644).
- A flush that fails after the rename (lines 659-662) reports an error although the
  new file is in place, so an error means the whole old or the whole new contents;
  `TrustedPeerExamples.StoreRunOutcome` shows such a call.
- A known TXT key that occurs twice refuses the record (discovery.rs:426), where
  section 6.4 of RFC 6763 keeps the first occurrence.

## Eviction by count

Capacity may evict tombstones early, and the peer may then become visible again
(docs/protocol.md:38). The model says exactly when a caller can tell: when more than
256 tombstones carry the same time, an observation at that very time is accepted
instead of being refused as stale.
`DiscoveredPeerRefinement.PruningObservableExactly` is the condition over runs,
`DiscoveryRuns.SessionPruningExactly` the same for sessions of raw events, and
`DiscoveryExamples.CrowdedSession` a session that meets it. With strictly increasing
times it cannot arise.

## Model

| member | source | states |
|---|---|---|
| TrustedPeerLaws.DecodeEncode | crates/local-transfer-core/src/trusted_peers.rs:794-942 | a canonical list of at most 128 records is read back after writing if and only if every label is at most 128 UTF-8 bytes, and then it comes back unchanged |
| TrustedPeerLaws.DecodeNormalises | crates/local-transfer-core/src/trusted_peers.rs:814-852 | a successful read has exactly one record for each line after the header, identities strictly increasing, only valid records with short labels, and writing and reading it again gives the same list |
| TrustedPeerLaws.DuplicatesExact | crates/local-transfer-core/src/trusted_peers.rs:835-850 | comparing sorted neighbours refuses a file exactly when some two of its lines carry the same identity |
| TrustedPeerAcceptance.DecodeAccepts | crates/local-transfer-core/src/trusted_peers.rs:814-852 | a file is accepted exactly when it is the header line and at most 128 readable record lines, each ended by a newline, that repeat no identity; the result is their records in identity order |
| TrustedPeerAcceptance.ParseRecordExact | crates/local-transfer-core/src/trusted_peers.rs:867-917 | a line is read as a record exactly when it is the printed form of that identity with a label field of at most 128 bytes that validation turns into that label |
| TrustedPeerAcceptance.HeaderExact | crates/local-transfer-core/src/trusted_peers.rs:854-865 | exactly one header line is accepted |
| TrustedPeerAcceptance.RefusedUnread | crates/local-transfer-core/src/trusted_peers.rs:814-829 | a file over 64 KiB is refused for its size, and within that one that is not text or does not end its last line for that |
| TrustedPeerAcceptance.RefusedForHeader | crates/local-transfer-core/src/trusted_peers.rs:826-865 | then for a first line that is no header, for another version, and for more than 128 records |
| TrustedPeerAcceptance.RefusedForLine | crates/local-transfer-core/src/trusted_peers.rs:835-850 | then for the first thing wrong with its first bad line |
| TrustedPeerAcceptance.RefusedForIdentity | crates/local-transfer-core/src/trusted_peers.rs:835-850 | and last for a repeated identity |
| TrustedPeerAcceptance.LineRefusals | crates/local-transfer-core/src/trusted_peers.rs:867-917 | a refused line is refused for the first thing wrong with it: its length, its fields or scheme, the length and the digits of its material, the digits or text of its label, or the label itself |
| TrustedPeerAcceptance.HeaderBytes | crates/local-transfer-core/src/trusted_peers.rs:67-68 | the header line, byte for byte |
| TrustedPeerAcceptance.RecordBytes | crates/local-transfer-core/src/trusted_peers.rs:797-810 | a record line is the decimal scheme, the material in hexadecimal, and the label in hexadecimal or a dash, with single spaces between |
| TrustedPeerAcceptance.FileBytes | crates/local-transfer-core/src/trusted_peers.rs:794-812 | a file is the header and the record lines in turn, each ended by one line feed |
| TrustedPeerAcceptance.RecordLimits | crates/local-transfer-core/src/trusted_peers.rs:57-66 | the limits of a record that can be read back: a 16-bit scheme, 1 to 64 bytes of material, a valid label of at most 128 bytes |
| TrustedPeerAcceptance.RecordOrder | crates/local-transfer-core/src/trusted_peers.rs:94-98 | records are ordered by scheme and then by material |
| TrustedPeerLaws.ParseEncodedRecord | crates/local-transfer-core/src/trusted_peers.rs:867-917 | a written line is read back as the same record if and only if its label is at most 128 bytes |
| TrustedPeerLaws.ParsedRecordShort | crates/local-transfer-core/src/trusted_peers.rs:867-917 | whatever line is accepted, the record is valid and its label is at most 128 bytes |
| TrustedPeerCodec.EncodeStore | crates/local-transfer-core/src/trusted_peers.rs:794-812 | the one-pass writer produces the header line and the record lines in the order given |
| TrustedPeerCodec.DecodeStore | crates/local-transfer-core/src/trusted_peers.rs:814-852 | the line-by-line reader has the same outcome, error for error, as the specification the laws are about |
| TrustedPeerCodec.PushRecord | crates/local-transfer-core/src/trusted_peers.rs:797-810 | one record line is appended and nothing before it changes |
| Bytes.PushHex | crates/local-transfer-core/src/trusted_peers.rs:924-930 | exactly the lowercase encoding is appended |
| Bytes.DecodeHex | crates/local-transfer-core/src/trusted_peers.rs:932-950 | decodes exactly what the specification of lowercase hexadecimal accepts |
| Bytes.UnhexExact | crates/local-transfer-core/src/trusted_peers.rs:924-950 | hexadecimal decoding accepts exactly the nonempty encodings and inverts encoding |
| Bytes.HexDigits | crates/local-transfer-core/src/trusted_peers.rs:924-930 | each byte is two digits of 0123456789abcdef, the high half first |
| Ordering.BelowExact | crates/local-transfer-core/src/trusted_peers.rs:94-98 | the derived order on bytes is decided by the first difference, and otherwise puts the shorter sequence first |
| Bytes.ParseCanonicalU16Exact | crates/local-transfer-core/src/trusted_peers.rs:919-922 | a decimal field is accepted exactly when it is the printed form of a 16-bit number |
| DisplayText.NormalizeExact | crates/local-transfer-core/src/trusted_peers.rs:165-183 | label validation yields only valid texts, never lengthens its input, and leaves exactly the valid texts unchanged |
| DisplayText.NormalizeAccepts | crates/local-transfer-core/src/device_name.rs:33-50 | a text is what validation makes of a value exactly when the text is valid and the value has no control character and only pads it with whitespace |
| DisplayText.NormalizeRefuses | crates/local-transfer-core/src/device_name.rs:33-50 | a value is refused for a control character first, then for being blank, then for its length after trimming |
| DisplayText.ValidExact | crates/local-transfer-core/src/device_name.rs:28-50 | a valid text has 1 to 64 characters, none a control, and a visible first and last one |
| DisplayText.WhitespaceExact | crates/local-transfer-core/src/device_name.rs:39 | the 25 characters that trimming removes |
| DisplayText.ControlExact | crates/local-transfer-core/src/device_name.rs:35 | the 65 characters that are controls |
| TrustedPeerMutation.GetAgreesWithLinearSearch | crates/local-transfer-core/src/trusted_peers.rs:282-287 | binary search finds what a linear search finds, for every identity and every loaded list |
| TrustedPeerMutation.PlanCommits | crates/local-transfer-core/src/trusted_peers.rs:541-579 | the records handed to the writer hold the old contents with just this one mutation made |
| TrustedPeerMutation.WriteFits | crates/local-transfer-core/src/trusted_peers.rs:637-652 | whatever was loaded, the new bytes are at most 50464, only the capacity check can refuse, and the result is readable exactly when the new label is short |
| TrustedPeerMutation.RefusedExactly | crates/local-transfer-core/src/trusted_peers.rs:637-643 | the writer refuses exactly a new identity for a store of 128, and reports 129 records |
| TrustedPeerMutation.ContentsDetermineRecords | crates/local-transfer-core/src/trusted_peers.rs:644-646 | two sorted identity-unique lists with the same identity-to-label map are equal |
| TrustedPeerRuns.RunSafe | crates/local-transfer-core/src/trusted_peers.rs:510-693 | the protocol invariant holds in every state of every interleaving with busy locks, failures and crashes |
| TrustedPeerRuns.FileIsReplay | crates/local-transfer-core/src/trusted_peers.rs:541-662 | the file is readable if and only if every committed label is short, and then it holds exactly the fold of the committed mutations in commit order |
| TrustedPeerRuns.VersionLoads | crates/local-transfer-core/src/trusted_peers.rs:510-536 | every past version reads back as the fold of the commits up to it, unless the last of them has a long label |
| TrustedPeerRuns.CallsLinearize | crates/local-transfer-core/src/trusted_peers.rs:510-693 | each returned call took effect once between its start and its return: success owns a commit of its own, busy, unreadable and refused calls own none, only a failed flush may own one; a lock-free read saw one whole version, an unreadable outcome carries the error of a version current during the call, and a refusal means a new identity while the store held 128 others |
| TrustedPeerRuns.NeverUnreadable | crates/local-transfer-core/src/trusted_peers.rs:510-579 | as long as every committed label is short, no call ever finds the file unreadable |
| TrustedPeerRuns.CommitsWereBegun | crates/local-transfer-core/src/trusted_peers.rs:541-579 | nothing is committed that no process asked for |
| TrustedPeerRuns.RemovedStaysRemoved | crates/local-transfer-core/src/trusted_peers.rs:563-579 | a committed removal holds until a later commit stores that identity |
| TrustedPeerRuns.StoredStaysStored | crates/local-transfer-core/src/trusted_peers.rs:541-553 | a committed record keeps its label until a later commit for the same identity |
| TrustedPeerRuns.BytesAreCanonical | crates/local-transfer-core/src/trusted_peers.rs:637-646 | two histories that leave the same identity-to-label map leave byte-identical files |
| TrustedPeerRuns.LongLabelFreezesStore | crates/local-transfer-core/src/trusted_peers.rs:892-905 | once a label over 128 bytes is committed, no continuation of the run ever replaces the file |
| TrustedPeerExamples.LongRecordUnreadable | crates/local-transfer-core/src/trusted_peers.rs:165-183 | a label of 43 characters in 129 bytes that validation accepts unchanged and no reader accepts |
| TrustedPeerExamples.LongLabelRun | crates/local-transfer-core/src/trusted_peers.rs:541-560 | storing that record on an empty store reports success, leaves a file no load accepts, and every continuation leaves that file |
| TrustedPeerExamples.StoreRunOutcome | crates/local-transfer-core/src/trusted_peers.rs:637-662 | storing a first valid record puts it in place whether or not the flush succeeds, the failed flush being reported as an error by a call that owns the commit; the file is readable if and only if the label is short |
| TrustedPeerRuns.MutualExclusion | crates/local-transfer-core/src/trusted_peers.rs:684-693 | at most one process is between taking the lock and dropping it |
| TrustedPeerRuns.CorruptStaysClosed | crates/local-transfer-core/src/trusted_peers.rs:510-579 | from a file that cannot be read, no run of any number of processes replaces it or commits, and every returned call fails with that file's error, a busy lock, or input and output |
| TrustedPeerProgress.FailuresHaveCauses | crates/local-transfer-core/src/trusted_peers.rs:510-693 | over every run, a call reports an input or output failure only if a step of its process failed during that call, and a busy store only if another process held the lock at that moment |
| TrustedPeerProgress.MutationCompletes | crates/local-transfer-core/src/trusted_peers.rs:541-579 | from any state with a free lock and a readable file, an undisturbed mutation completes: refused only as a new identity in a full store, already absent only if it is, and otherwise committed, with the new file holding the old contents changed at that identity |
| TrustedPeerProgress.UnreadableCompletes | crates/local-transfer-core/src/trusted_peers.rs:541-579 | from any state with a free lock, an undisturbed mutation of an unreadable file reports that file's error and changes nothing |
| TrustedPeerProgress.ReadCompletes | crates/local-transfer-core/src/trusted_peers.rs:510-536 | from any state, whoever holds the lock, an undisturbed load returns what the file holds |
| TrustedPeerProgress.BusyReturns | crates/local-transfer-core/src/trusted_peers.rs:684-693 | while another process holds the lock, a mutation gives up at once |
| TrustedPeerProgress.StepsCanFail | crates/local-transfer-core/src/trusted_peers.rs:583-662 | the runs allow a failure at every step of a call and a crash at any moment, and none of these touches the file |
| DiscoveredPeers.DiscoveredPeerState.ApplyEvent | crates/local-transfer-core/src/discovered_peers.rs:128-148 | the in-place update moves the records and replies exactly as the specified step, keeping the visible count exact |
| DiscoveredPeers.DiscoveredPeerState.ExpirePeers | crates/local-transfer-core/src/discovered_peers.rs:153-189 | the in-place expiry moves the records and replies exactly as the specified step, keeping the visible count exact |
| DiscoveredPeers.DiscoveredPeerState.ObservePeer | crates/local-transfer-core/src/discovered_peers.rs:191-241 | an observation changes at most its own key, and the visible count with it |
| DiscoveredPeers.DiscoveredPeerState.RemovePeer | crates/local-transfer-core/src/discovered_peers.rs:243-285 | a removal changes at most its own key, and the visible count never underflows |
| DiscoveredPeers.DiscoveredPeerState.PruneTombstones | crates/local-transfer-core/src/discovered_peers.rs:287-308 | the retain, sort and drop passes leave exactly the specified survivors |
| DiscoveredPeerLaws.PruneExact | crates/local-transfer-core/src/discovered_peers.rs:287-308 | pruning touches no visible record, and keeps exactly the greatest min(256, n) tombstones by time and key among the n that are at most 300 seconds old |
| DiscoveredPeerLaws.StampsInOrder | crates/local-transfer-core/src/discovered_peers.rs:294-308 | tombstones are ordered by time, and at the same time by key |
| DiscoveredPeerLaws.TombstonesRecent | crates/local-transfer-core/src/discovered_peers.rs:134-148 | after any call but an error, at any time, no tombstone is left that is more than 300 seconds old at that time |
| DiscoveredPeerLaws.RunInvariants | crates/local-transfer-core/src/discovered_peers.rs:128-308 | after any calls at any times there are at most 256 tombstones, and a visible record was last observed at its last transition |
| DiscoveredPeerLaws.TimesNeverDecrease | crates/local-transfer-core/src/discovered_peers.rs:153-285 | the transition time of a retained key never goes back, whatever times the caller passes |
| DiscoveredPeerLaws.ExpireExact | crates/local-transfer-core/src/discovered_peers.rs:153-189 | exactly the visible keys whose window has elapsed go, each is reported once in increasing key order, the others stay untouched, and an immediate repeat reports nothing |
| DiscoveredPeerLaws.TombstoneStep | crates/local-transfer-core/src/discovered_peers.rs:128-308 | one call at any time leaves a tombstone in place or renewed, reveals it by a strictly later observation, or drops it past its age or behind 256 newer ones |
| DiscoveredPeerLaws.NoResurrection | crates/local-transfer-core/src/discovered_peers.rs:134-145 | a hidden key that is visible later in a run was observed later than its tombstone, or the tombstone was dropped by age or by capacity in between |
| DiscoveredPeerLaws.StaleExact | crates/local-transfer-core/src/discovered_peers.rs:191-207 | in every reachable state an observation is refused as stale exactly when it is older than the record, or as old as a tombstone; the prune before it never drops the record that refuses it |
| DiscoveredPeerLaws.ObservationExact | crates/local-transfer-core/src/discovered_peers.rs:191-241 | in every reachable state an accepted observation shows the peer with its time, the reply tells whether it was hidden, the same or different, and no other key changes |
| DiscoveredPeerLaws.RemovalExact | crates/local-transfer-core/src/discovered_peers.rs:243-285 | in every reachable state a removal is stale exactly when the record is later; otherwise it leaves a tombstone of its time, the reply tells whether there was a peer to hide, and no other key changes |
| DiscoveredPeerLaws.ExpiryLeaves | crates/local-transfer-core/src/discovered_peers.rs:153-189 | expiry leaves each expired key a tombstone of its time, and no other key changes |
| DiscoveredPeerLaws.ErrorChangesNothing | crates/local-transfer-core/src/discovered_peers.rs:128-148 | a browser error is passed on and changes nothing |
| DiscoveredPeerRefinement.AgePruningUnobservable | crates/local-transfer-core/src/discovered_peers.rs:287-293 | with nondecreasing times, pruning by age gives the visible map and every reply of a reference that never prunes |
| DiscoveredPeerRefinement.PruningUnobservable | crates/local-transfer-core/src/discovered_peers.rs:287-308 | with nondecreasing times and never more than 256 tombstones of one instant, both prunes together are unobservable too |
| DiscoveredPeerRefinement.PruningObservableExactly | crates/local-transfer-core/src/discovered_peers.rs:287-308 | for every run with nondecreasing times, observations made at any time of the run are answered as a state that never prunes would answer them if and only if no instant of the run leaves that state with more than 256 tombstones; when the run's keys and peers passed validation, this already holds of the observations of well-formed peers alone |
| DiscoveredPeerRefinement.LastMomentExact | crates/local-transfer-core/src/discovered_peers.rs:294-308 | while earlier instants stay within the bound, observations (of well-formed peers, when the run passed validation) at the time of the last call are answered as without pruning if and only if at most 256 tombstones carry that time |
| DiscoveryRuns.SessionPruningExactly | crates/local-transfer-core/src/discovered_peers.rs:287-308 | the same condition for the calls that any session of raw events and expiries with nondecreasing times makes |
| DiscoveryExamples.CrowdedSession | crates/local-transfer-core/src/discovered_peers.rs:294-308 | whichever 257 services with different keys are resolved and removed at one instant, one of them, resolved again at that instant, is reported as added and appears, where a state that never prunes refuses it as stale |
| DiscoveryExamples.CrowdExists | crates/local-transfer-core/src/browser.rs:382-439 | 257 resolutions that validation accepts, with different keys |
| DiscoveredPeerRefinement.TombstonesUnobservable | crates/local-transfer-core/src/discovered_peers.rs:128-308 | with strictly increasing times the whole state behaves as a plain map from keys to visible peers |
| Browser.BrowserState.Resolve | crates/local-transfer-core/src/browser.rs:382-439 | a valid resolution is remembered and reported as added, updated or refreshed; an invalid one changes nothing |
| Browser.BrowserState.TranslateEvent | crates/local-transfer-core/src/browser.rs:362-380 | each raw event moves the remembered peers and reports as the specification says |
| Browser.TranslateKeepsFiled | crates/local-transfer-core/src/browser.rs:362-439 | every remembered peer is well formed and filed under its own key after every event |
| Browser.TranslateExact | crates/local-transfer-core/src/browser.rs:362-439 | what is reported for each raw event, and which peers are remembered after it |
| Browser.BuildPeerRefuses | crates/local-transfer-core/src/browser.rs:382-421 | a refused resolution names the first of its parts that is wrong, with its key once that is known |
| Browser.SuffixBytes | crates/local-transfer-core/src/browser.rs:22-23 | the suffix of every key, byte for byte |
| Browser.EndpointOrder | crates/local-transfer-core/src/browser.rs:68-72 | endpoints are ordered by family, then address, then without a scope before any scope |
| Browser.BuiltPeerWellFormed | crates/local-transfer-core/src/browser.rs:382-428 | an accepted peer has the canonical key, the parsed metadata, the resolved port, 1 to 16 distinct ordered endpoints that are exactly the resolved ones, and a protocol major both sides support |
| Browser.BuildPeerExact | crates/local-transfer-core/src/browser.rs:382-421 | a resolution is accepted exactly when its key, port and metadata are, it has 1 to 16 different endpoints, and its protocol range contains the initial major |
| Browser.KeyIsCanonical | crates/local-transfer-core/src/browser.rs:32-58 | every accepted key is itself a fullname that yields the same key |
| Browser.NewKeyExact | crates/local-transfer-core/src/browser.rs:32-58 | a fullname is accepted exactly when it is at most 255 bytes, free of control characters, and a nonempty instance followed by the service suffix in any letter case; only the suffix is rewritten |
| Browser.OrderedSetExact | crates/local-transfer-core/src/browser.rs:391-403 | the endpoint list is strictly ordered and has exactly the resolved endpoints |
| DiscoveryRuns.VisibleIsStored | crates/local-transfer-core/src/browser.rs:362-439 | over every run of raw events and expiries with nondecreasing times, each visible peer is the peer the browser stores for that key |
| DiscoveryRuns.SessionIsRun | crates/local-transfer-core/src/browser.rs:362-439 | the lifecycle state of every session is the one its reported calls lead to, and every key and peer in those calls passed validation |
| DiscoveryRuns.ExtraKeysExactly | crates/local-transfer-core/src/browser.rs:362-439 | with strictly increasing times, a key that the browser has and the lifecycle does not show is exactly one that some expiry reported and no later browser report is about |
| DiscoveryRuns.ExtraKeysAreExpired | crates/local-transfer-core/src/browser.rs:362-439 | with strictly increasing times, the browser's keys are the visible ones and, apart from those, the expired ones, each stored peer well formed under its own key |
| DiscoveryRuns.EventsMapToTransitions | crates/local-transfer-core/src/discovered_peers.rs:191-285 | added, updated, refreshed and removed map to appeared, updated, refreshed and removed, except that an expired key appears again and its removal is a no-op |
| DiscoveryRuns.EventsMapExactly | crates/local-transfer-core/src/discovered_peers.rs:191-285 | with nondecreasing times, a reported observation is stale exactly when a tombstone of its key carries its very time; otherwise it appears if not shown, and else is updated or refreshed as the browser says; a removal is explicit exactly when the key is shown |
| PairingWire.DecodeExact | crates/local-transfer-core/src/pairing.rs:218-289 | decoding is a bijection between messages and the byte strings it accepts |
| PairingWire.Layout | crates/local-transfer-core/src/pairing.rs:38-59 | the bytes of every message |
| PairingWire.RefusedExactly | crates/local-transfer-core/src/pairing.rs:245-289 | the exact error of every byte string that is refused |
| PairingWire.EncodeMessage | crates/local-transfer-core/src/pairing.rs:218-240 | the byte-by-byte writer produces the specified encoding |
| PairingMachines.PairingRequest.MarkRequestSent | crates/local-transfer-core/src/pairing.rs:570-583 | the object moves as the specified initiator step, deadline first |
| PairingMachines.PairingRequest.RequestMessage | crates/local-transfer-core/src/pairing.rs:553-563 | the object moves as the specified initiator step, and serves the bytes that step serves |
| PairingMachines.PairingRequest.HandleRemoteMessage | crates/local-transfer-core/src/pairing.rs:590-617 | the object moves as the specified initiator step for every byte string, malformed or not |
| PairingMachines.PairingResponse.AcceptRequest | crates/local-transfer-core/src/pairing.rs:873-892 | the object moves as the specified responder step and hands out the reply at most there |
| PairingMachines.PairingResponse.RejectRequest | crates/local-transfer-core/src/pairing.rs:898-921 | the object moves as the specified responder step and hands out the refusal with its reason |
| PairingMachines.PairingResponse.MarkSent | crates/local-transfer-core/src/pairing.rs:926-940 | the object moves as the specified responder step |
| PairingMachines.PresentRequest | crates/local-transfer-core/src/pairing.rs:806-817 | only a well-formed request message creates a responder, for that message's attempt |
| PairingTraces.FirstVerdictDecides | crates/local-transfer-core/src/pairing.rs:553-657 | over any input trace an initiator's final state is the verdict of the first input that ends the attempt |
| PairingTraces.ReadyExactly | crates/local-transfer-core/src/pairing.rs:570-617 | an initiator is ready if and only if it was marked sent and then received an accept of its own attempt, with every earlier time-aware call before the deadline |
| PairingTraces.RequestAbsorbs | crates/local-transfer-core/src/pairing.rs:620-657 | no input changes a terminal initiator |
| PairingTraces.FirstResponseVerdictDecides | crates/local-transfer-core/src/pairing.rs:873-980 | over any input trace a responder's final state is the verdict of its first ending input |
| PairingTraces.ResponseReadyExactly | crates/local-transfer-core/src/pairing.rs:873-940 | a responder is ready if and only if it accepted and was then marked sent, in time |
| PairingTraces.AtMostOneReply | crates/local-transfer-core/src/pairing.rs:873-921 | a responder hands out at most one reply, which carries the request's attempt and agrees with its state |
| PairingEvents.ServedExactly | crates/local-transfer-core/src/pairing.rs:553-563 | over every trace, the request is served exactly while nothing has ended the attempt, it has not been marked sent and the deadline has not come, and what is served decodes to this attempt's request |
| PairingEvents.RequestAnswers | crates/local-transfer-core/src/pairing.rs:570-657 | over every trace, what each other call on an initiator returns |
| PairingEvents.ResponseAnswers | crates/local-transfer-core/src/pairing.rs:873-980 | over every trace, what each call on a responder returns |
| PairingEvents.PresentedExactly | crates/local-transfer-core/src/pairing.rs:806-817 | a presented message starts an attempt exactly when it is a request, and otherwise names what is wrong with it |
| PairingEvents.BothReady | crates/local-transfer-core/src/pairing.rs:478-940 | for any attempt and deadlines there is a composed run in which both sides end ready |
| PairingEvents.BothRejected | crates/local-transfer-core/src/pairing.rs:478-921 | for any attempt, deadlines and reason there is a composed run in which both sides end rejected with that reason |
| PairingNetwork.RunSafe | crates/local-transfer-core/src/pairing.rs:553-980 | every state of the composed system has only genuine messages in flight and only justified initiator states, whatever the network drops, repeats or reorders |
| PairingNetwork.OutcomeJustified | crates/local-transfer-core/src/pairing.rs:590-617 | a ready initiator implies a responder of that attempt that accepted before its deadline; a rejected one implies a responder that refused with exactly that reason; genuine traffic never causes a protocol failure |
| PairingNetwork.NeverOpposite | crates/local-transfer-core/src/pairing.rs:806-937 | the single responder of an attempt never ends opposite to its initiator |
| PairingNetwork.OtherRepliesIgnored | crates/local-transfer-core/src/pairing.rs:603-608 | a reply to another attempt changes nothing but what the deadline alone would |
| DiscoveryLaws.RoundTrip | crates/local-transfer-core/src/discovery.rs:333-441 | printing and parsing give back every valid metadata value |
| DiscoveryLaws.AcceptedExactly | crates/local-transfer-core/src/discovery.rs:367-447 | a record parses to a value exactly when it is within 512 bytes, repeats no known key, its required fields say the value in canonical decimal under schema version 1, and each hint is the usable one carried, if any |
| DiscoveryLaws.AcceptedOnWire | crates/local-transfer-core/src/discovery.rs:23-27 | an accepted record carries 1 under dv, its range under pmin and pmax, and its hints under name and os, byte for byte |
| DiscoveryLaws.PrintedOnWire | crates/local-transfer-core/src/discovery.rs:333-361 | the printed entries, keys and platform names byte for byte |
| DiscoveryLaws.KnownExactly | crates/local-transfer-core/src/discovery.rs:377-395 | a key is known exactly when its lower-case bytes are one of the five, and then as that field |
| DiscoveryLaws.PlatformOnWire | crates/local-transfer-core/src/discovery.rs:194-213 | the bytes of each platform's name |
| DiscoveryLaws.RefusedForSize | crates/local-transfer-core/src/discovery.rs:367-376 | a record over 512 bytes is refused for its size |
| DiscoveryLaws.RefusedForRepeat | crates/local-transfer-core/src/discovery.rs:377-429 | then the first entry that repeats a known key names the refusal |
| DiscoveryLaws.RefusedInOrder | crates/local-transfer-core/src/discovery.rs:397-418 | then the version, the minimum, the maximum and their range are judged in this order, each as missing, malformed or wrong |
| DiscoveryLaws.ParsedIsValid | crates/local-transfer-core/src/discovery.rs:367-418 | whatever is accepted is valid and survives being printed and parsed again |
| DiscoveryLaws.OrderIndependent | crates/local-transfer-core/src/discovery.rs:367-429 | a rearrangement of the entries succeeds exactly when the original does, with the same value |
| DiscoveryLaws.CaseIndependent | crates/local-transfer-core/src/discovery.rs:377-395 | changing the letter case of keys changes neither value nor error |
| DiscoveryLaws.UnknownKeysIgnored | crates/local-transfer-core/src/discovery.rs:367-395 | an unknown key anywhere leaves the outcome alone while the record stays within 512 bytes |
| DiscoveryLaws.DuplicatesRefused | crates/local-transfer-core/src/discovery.rs:421-429 | a known key repeated in any letter case refuses the record, wherever the repetition is |
| DiscoveryLaws.PrintedEntriesValid | crates/local-transfer-core/src/discovery.rs:234-281 | every printed entry is one the entry constructor accepts unchanged |
| DiscoveryLaws.NewEntryExact | crates/local-transfer-core/src/discovery.rs:234-260 | an entry is built exactly from a nonempty printable key without an equals sign, within 255 bytes, and the error says which fails |
| DiscoveryLaws.NewHintExact | crates/local-transfer-core/src/discovery.rs:120-137 | a hint is accepted, unchanged, exactly within 96 bytes, with something visible in it and no control character |
| DiscoveryLaws.PrintedSize | crates/local-transfer-core/src/discovery.rs:333-361 | what is printed always fits the 512-byte budget |
| DiscoveryLaws.SizesAdd | crates/local-transfer-core/src/discovery.rs:272-274 | an entry counts its key, its value, the equals sign and a length octet |
| DiscoveryMetadata.ToTxtEntries | crates/local-transfer-core/src/discovery.rs:333-361 | the required entries are pushed first, then each optional one that is present, as specified |
| DiscoveryMetadata.FromTxtEntries | crates/local-transfer-core/src/discovery.rs:367-418 | the slot-filling loop has the same outcome, error for error, as the specification the laws are about |
| DiscoveryMetadata.ProtocolRange.HighestCompatible | crates/local-transfer-core/src/discovery.rs:68-73 | the result is the greatest version in both ranges, and there is none exactly when the ranges are disjoint |
| DiscoveryMetadata.HintFromDeviceName | crates/local-transfer-core/src/discovery.rs:139-146 | the truncation loop ends within three steps at the longest prefix that fits 96 bytes |
| DiscoveryLaws.LongestHintUnique | crates/local-transfer-core/src/discovery.rs:139-146 | no other prefix is the longest that fits |
| DiscoveryLaws.HintBudget | crates/local-transfer-core/src/discovery.rs:139-146 | the truncated name is at most 96 bytes, and every longer prefix is more |
| DiscoveryLaws.HintAccepted | crates/local-transfer-core/src/discovery.rs:120-137 | the truncated name passes hint validation unchanged and survives the TXT record |
| Utf8.BoundaryIsPrefix | crates/local-transfer-core/src/discovery.rs:139-146 | cutting at a character boundary gives the encoding of a prefix of the text |
| Utf8.DecodeExact | crates/local-transfer-core/src/discovery.rs:443-447 | UTF-8 decoding accepts exactly the encodings of scalar sequences and inverts encoding |
| Utf8.ScalarLayout | crates/local-transfer-core/src/discovery.rs:443-447 | the byte ranges and bit positions of section 3 of RFC 3629 |
| ConfigFile.RunSafe | crates/local-transfer-core/src/identity.rs:92-153 | every state of every interleaving keeps the version history whole: only the first version can be a creation, and each returned call read or published a version that was current during it |
| ConfigFile.OneCreator | crates/local-transfer-core/src/identity.rs:125-136 | at most one call ever reports having created the file |
| ConfigFile.RunSourced | crates/local-transfer-core/src/identity.rs:116-143 | nothing is published that no process generated or asked for |
| ConfigProgress.FailuresHaveCauses | crates/local-transfer-core/src/identity.rs:92-153 | over every run, a call reports an input or output failure exactly if a step of its process failed |
| ConfigProgress.StepsCanFail | crates/local-transfer-core/src/identity.rs:92-153 | any process inside a call can fail, and any process can crash, without touching the file |
| DeviceIdentity.Agreement | crates/local-transfer-core/src/identity.rs:92-153 | an identifier returned by one call is what the file holds from then on and what every other successful call returns |
| DeviceIdentity.FileNeverChanges | crates/local-transfer-core/src/identity.rs:125-136 | the file, once there, keeps its bytes through every later step of every process |
| DeviceIdentity.ExistingDataKept | crates/local-transfer-core/src/identity.rs:90-99 | existing data, valid or not, is never replaced, and invalid data makes every call fail |
| DeviceIdentity.NeverInvalid | crates/local-transfer-core/src/identity.rs:108-114 | from an absent or valid file no call ever reports invalid data |
| DeviceIdentity.FileWasGenerated | crates/local-transfer-core/src/identity.rs:116-132 | an identifier that appears was generated by some caller and is in printed form |
| DeviceIdentity.ParsePersistedExact | crates/local-transfer-core/src/identity.rs:39-46 | a file names an identifier exactly when it is the canonical lowercase text, with or without one final newline |
| DeviceIdentity.LoadCompletes | crates/local-transfer-core/src/identity.rs:92-132 | from any state, an undisturbed call returns the identifier an existing file names, or what is wrong with it; without a file it returns the one it generated, which the file then names |
| DeviceIdentity.LoserAgrees | crates/local-transfer-core/src/identity.rs:134-153 | whoever loses the race to create the file returns the identifier of the winner |
| DeviceIdentity.IoHasCause | crates/local-transfer-core/src/identity.rs:92-153 | over every run, a call reports an input or output failure exactly if a step of its process failed or the file it read is not text |
| DeviceIdentity.IdBytes | crates/local-transfer-core/src/identity.rs:30-46 | the file is five groups of lowercase digits with dashes, the version digit 4, and a line feed |
| DeviceNameStore.AnswersWereCurrent | crates/local-transfer-core/src/device_name.rs:131-181 | a successful call returns a name the file held at some moment of that call, and an update returns its own, published after the call began |
| DeviceNameStore.LastWriterWins | crates/local-transfer-core/src/device_name.rs:147-156 | the file names exactly what the last publication published |
| DeviceNameStore.DefaultNeverOverwrites | crates/local-transfer-core/src/device_name.rs:166-181 | the default name is only ever written as the first version, where there was no file |
| DeviceNameStore.KeptUntilUpdated | crates/local-transfer-core/src/device_name.rs:127-141 | existing data, valid or not, stays byte for byte until an update that was asked for replaces it |
| DeviceNameStore.StaysReadable | crates/local-transfer-core/src/device_name.rs:158-164 | from an absent or readable file every version stays readable and every completed read succeeds |
| DeviceNameStore.PersistedParses | crates/local-transfer-core/src/device_name.rs:158-190 | every valid name survives its file |
| DeviceNameStore.ParsePersistedExact | crates/local-transfer-core/src/device_name.rs:158-164 | a file names exactly what validation makes of its text, whose one final newline does not count |
| DeviceNameStore.RefusedForText | crates/local-transfer-core/src/device_name.rs:158-164 | a file of a text and a line feed is refused for what is wrong with the text |
| DeviceNameStore.LoadCompletes | crates/local-transfer-core/src/device_name.rs:131-181 | from any state, an undisturbed load returns the name of an existing file, or what is wrong with it, and otherwise creates and returns the default |
| DeviceNameStore.LoserReads | crates/local-transfer-core/src/device_name.rs:176-198 | whoever finds the file created first returns the name that is there |
| DeviceNameStore.UpdateCompletes | crates/local-transfer-core/src/device_name.rs:147-156 | from any state, an undisturbed update puts the new name in the file and returns it |
| DeviceNameStore.IoHasCause | crates/local-transfer-core/src/device_name.rs:131-198 | over every run, a call reports an input or output failure exactly if a step of its process failed or the file it read is not text |
| DeviceNameStore.NameBytes | crates/local-transfer-core/src/device_name.rs:16-16 | the file is the name and a line feed, and the default name byte for byte |
| DeviceNameStore.Proposed | crates/local-transfer-core/src/device_name.rs:33-50 | an update is accepted exactly when the text normalises, as the normalised text, of which the proposed one is a padding with whitespace; otherwise the error is that of validation |

## Left out

- Foreign library calls: the mDNS daemon, its backends and `raw_service`, and reading their channels.
- Session bookkeeping: advertisement lifecycle, the `active` flag of a browser session, stop and drop.
- The command line program: arguments, signals, sleeping and report text.
- Permissions, symlink checks, directory hardening and platform differences of flushing; a step may fail at any of these points, and the failure is an input error without detail.
- The lock file's own creation and checks: a failure there is one failing step before the lock is held.
- The trusted-peer store, the identifier store and the name store are step protocols on values, because what they promise is about several processes at once; the objects behind one call are not modelled.
- A load checks the file size and reads in one step through a pinned descriptor; the two size checks of the bounded read are the one size check of decoding.
- The composed pairing network does not invent bytes; forged input to one machine is covered by the traces of that machine alone.
- Generation of random identifiers: values come from the caller, and attempt identifiers of different initiators are distinct.
- Other spellings that the identifier library can parse: the canonical comparison refuses them all.
- The upper bound of time values and the widths of sizes: times and counts are unbounded naturals.
- Internet addresses: an endpoint's address is an ordered number with a family, and scope handling when an endpoint is built is its caller's.
- Library sorting, binary search and ordered sets are functions with proved properties, not the library's algorithms.
- Error texts, error sources, platform detection and the wiring of the device manager.
- Authenticated pairing stages, key exchange and transfers, which have no code yet.
