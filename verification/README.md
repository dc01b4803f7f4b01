# Joining-code and profile validation, modelled in Dafny

This project models the two pieces of decision logic in a Holochain app:

- The joining-code (membrane proof) checks in `crates/joining_code/src/validation.rs`:
  - `validate_joining_code` decides whether an agent may join the DNA.
  - `is_read_only_proof` recognises the one-byte read-only proof `[0]`.
  - `is_read_only_instance` tells a running cell whether it joined read-only.
- The validation callback of the profile zome in `zomes/profile/src/lib.rs`:
  - `validate` dispatches on the DHT `Op`.
  - `is_not_editable` and `is_not_editable_sb` read the `not_editable_profile` DNA property.

Every host service the code calls becomes an explicit input:

- `JoiningCode.Host` holds `Record::try_from`, `JoiningCodePayload::try_from`, `verify_signature` and entry hashing as pure functions. The code never hashes an entry; the hashing is used only by the corrected validator under "## Findings".
- `is_read_only_instance` takes the skip-proof flag and the `query` result as values.
- `Profile.Env` holds the result of `dna_info()`, `Props::try_from` and the entry validator `validation::__validate_entry`.

A Rust panic is modelled as an explicit outcome, `Hdk.Run.Panics`.

Files:

- `hdk.dfy` (module `Hdk`): the SDK values the validators read. These are keys, entries, actions, records, `Op`, `ValidateCallbackResult`, `WasmError` and `Result`.
- `joining_code.dfy` (module `JoiningCode`): the membrane-proof checks.
- `profile.dfy` (module `Profile`): the profile zome's callback and its property flag.

Behaviour of the code that a reader might not expect:

- The rejection texts are kept verbatim. The update rejection reads "Invalid try to Delete Entry" and the link-delete rejection reads "Invalid try to update Link".
- A proof that does not decode into a record is an `Err` (a guest error carrying the decoder's message), not an `Invalid` verdict.
- A payload that does not decode is an `Err` too. The decoder's error is passed on unchanged, as Rust's `?` does.
- The read-only gate indexes the first record of the query result, and it panics when that result is empty. `ReadOnlyInstanceOnChain` relates this to a scan of the chain.
- The signature is checked over the record's action only, and the entry the payload is read from is never compared with the action's entry hash. See "## Findings".

## Model

| member | source | states |
|---|---|---|
| JoiningCode.IsReadOnlyProof | crates/joining_code/src/validation.rs:23-27 | the proof is read-only exactly when it is one byte long and that byte is zero |
| JoiningCode.ValidateJoiningCode | crates/joining_code/src/validation.rs:44-114 | the result is `Valid` exactly when the proof is the read-only one or passes every admission check together (decodes, progenitor-signed, entry present, signature verified, payload decodes, registered agent is the author); an error arises only for a present, non-read-only proof; a deferral names only the requesting author |
| JoiningCode.AbsentProofRejected | crates/joining_code/src/validation.rs:110-112 | no membrane proof gives `Invalid("No membrane proof found")` for every progenitor, author and host |
| JoiningCode.ReadOnlyProofAdmits | crates/joining_code/src/validation.rs:52-54 | the proof `[0]` is `Valid` whatever the decoders and the signature service would answer, for any progenitor and author |
| JoiningCode.UndecodableProofIsError | crates/joining_code/src/validation.rs:56-59 | a non-read-only proof that is not a record gives an `Err` holding the decoder's message, not a verdict |
| JoiningCode.ForeignSignerRejectedFirst | crates/joining_code/src/validation.rs:63-71 | a record signed by someone other than the progenitor is rejected as an unexpected author naming the signer, and any host that decodes the proof alike gives the same answer, so neither the entry, the signature nor the payload is consulted |
| JoiningCode.MissingEntryRejected | crates/joining_code/src/validation.rs:104-108 | a progenitor-signed record without a present entry is `Invalid("Joining code invalid payload")`, independent of the signature service and the payload decoder |
| JoiningCode.SignatureOutcome | crates/joining_code/src/validation.rs:73-103 | past the author and entry checks: `Ok(false)` gives the incorrect-signature rejection, a signature error gives `UnresolvedDependencies([author])`, and `Ok(true)` gives the payload's verdict (decode error passed on, `Valid` if the registered agent is the author, otherwise the registered-agent rejection) |
| JoiningCode.DeferralNamesRequester | crates/joining_code/src/validation.rs:97-101 | a deferral arises only when the signature service failed on a decoded proof, and it never lists the progenitor unless the progenitor is the author |
| JoiningCode.UnexpectedAuthorInjective | crates/joining_code/src/validation.rs:67-70 | two unexpected-author reasons are equal only when they name the same signer |
| JoiningCode.ReasonIdentifiesCheck | crates/joining_code/src/validation.rs:65-112 | each rejection reason implies which check failed and what every earlier check saw, so an `Invalid` identifies its step of the cascade |
| JoiningCode.ForgedEntryAdmitted | crates/joining_code/src/validation.rs:73-89 | for every host: any action the progenitor signed (a `Create`, or even its `Dna` action, which commits to no entry), paired with an entry the action does not commit to whose payload names the attacker, admits the attacker |
| JoiningCode.SwappedEntryAdmitsUnsignedAgent | crates/joining_code/src/validation.rs:73-89 | for every host: when the progenitor signed a `Create` committing to a payload for `intended`, the genuine code admits `intended` and turns a different attacker away, yet the same signed action with its entry swapped for one naming the attacker admits the attacker |
| JoiningCode.ValidateJoiningCodeBound | crates/joining_code/src/validation.rs:73-89 | the corrected validator answers `Valid` for a non-read-only proof only when the record's entry hashes to its action's entry hash and every admission check passes; `Valid` holds exactly for the read-only proof or admission with the entry bound |
| JoiningCode.BoundDiffersOnlyOnUnboundEntry | crates/joining_code/src/validation.rs:73-108 | the corrected validator gives a different answer from the code exactly for a progenitor-signed, present, unbound entry that the code did not already reject as an invalid payload |
| JoiningCode.ForgedEntryRejectedWhenBound | crates/joining_code/src/validation.rs:73-89 | for every host: the corrected validator rejects the swapped entry as an invalid payload, while the genuine code still admits the agent it names |
| JoiningCode.IsReadOnlyInstance | crates/joining_code/src/validation.rs:5-21 | false whenever proofs are skipped; panics exactly when proofs are not skipped and the query returns no records; true exactly when the first queried record is a validation package whose proof is `[0]` |
| JoiningCode.QueryHeadIsFirstPkg | crates/joining_code/src/validation.rs:10-12 | the agent-validation-package query of a chain is empty exactly when the chain has no such package, and otherwise starts with the chain's first one |
| JoiningCode.ReadOnlyInstanceOnChain | crates/joining_code/src/validation.rs:6-21 | with proofs not skipped, the gate applied to the query of a chain answers whether the chain's first validation package carries the read-only proof, and panics when the chain has none |
| Profile.IsNotEditableSb | zomes/profile/src/lib.rs:85-92 | the flag holds exactly when the properties decode with `not_editable_profile` set; a decode failure reads as false |
| Profile.IsNotEditable | zomes/profile/src/lib.rs:77-83 | the flag holds exactly when `dna_info()` succeeds and its properties decode with the flag set |
| Profile.Validate | zomes/profile/src/lib.rs:24-70 | deletes and link deletes are always `Invalid`; any answer other than `Valid` or a fixed rejection is the entry validator's answer for the operation's own entry and author, and only for a stored entry or an update |
| Profile.AgentEntryAccepted | zomes/profile/src/lib.rs:27-30 | storing an agent key entry is `Valid` whatever the entry validator would say |
| Profile.StoredEntryDelegated | zomes/profile/src/lib.rs:31-41 | storing any other entry gives exactly the entry validator's answer for that entry and the action's author |
| Profile.DeleteAlwaysRejected | zomes/profile/src/lib.rs:42-44 | a delete is `Invalid("Invalid try to delete an Entry")` for every configuration, validator and author |
| Profile.UpdateGatedByFlag | zomes/profile/src/lib.rs:45-64 | an update is `Invalid("Invalid try to Delete Entry")` when the DNA forbids edits, and otherwise the entry validator's answer for the new entry and the updater |
| Profile.DeleteLinkAlwaysRejected | zomes/profile/src/lib.rs:65-67 | a link delete is `Invalid("Invalid try to update Link")` for every configuration and author |
| Profile.OtherOpsAccepted | zomes/profile/src/lib.rs:68 | records, agent activity and link creation are `Valid`; and `Valid` arises only from these, an agent entry, or the entry validator accepting a stored entry or a permitted update |
| Profile.UnreadableConfigAllowsEdits | zomes/profile/src/lib.rs:78-92 | when `dna_info()` fails or the properties do not decode, an update is never stopped by the edit gate and goes to the entry validator |
| Profile.OnlyUpdatesReadConfig | zomes/profile/src/lib.rs:24-70 | for every operation other than an update, the answer does not depend on `dna_info()` or the properties |

## Findings

| source | as written | input that shows it | evidently intended | confidence | as-written member | corrected member |
|---|---|---|---|---|---|---|
| crates/joining_code/src/validation.rs:73-89 | the progenitor's signature is verified over the record's action only, and the payload is decoded from the record's entry without checking that the entry hashes to the action's entry hash | a membrane proof holding the progenitor-signed `Create` of a joining code issued for another agent, with its entry replaced by one whose payload names the attacker, checked for the attacker; any progenitor-signed action works, including the `Dna` action, which commits to no entry | the joining code names the agent the progenitor signed it for, so the entry must be the one the signed action commits to | medium, not executed | JoiningCode.SwappedEntryAdmitsUnsignedAgent | JoiningCode.ValidateJoiningCodeBound |

## Left out

- Host calls: `query`, `dna_info`, `verify_signature` and `skip_proof` are inputs. `crate::props` (where `skip_proof` lives) is not part of this model.
- The query's filter is not modelled as behaviour. `PkgRecords` states what it is taken to return: the chain's agent-validation-package records in chain order. It is used only as a hypothesis of `ReadOnlyInstanceOnChain`.
- Entry hashing is an abstract function of the entry, like signature cryptography.
- Signature cryptography and msgpack decoding (`Record::try_from`, `JoiningCodePayload::try_from`, `Props::try_from`) are functions supplied by the caller, because the model treats their wire formats as opaque.
- `validation::__validate_entry` is an opaque function of the entry and author; the `validation` module is not part of this model.
- The `{:?}` rendering of a key in the unexpected-author message is taken to be `AgentPubKey(<base64>)`. The holo_hash formatting code is not part of this model. Only the message's prefix and its injectivity in the key are relied on.
- `UnresolvedDependencies` carries agent keys rather than `AnyDhtHash` values. The code converts the author's key into a hash with `.into()`, and that conversion is treated as the identity.
- Signed actions in an `Op` are reduced to their actions. The signature and hash wrappers are never read by `validate`. The typed action kinds (`EntryCreationAction`, `Update`, `Delete`, ...) are not enforced by the `Op` datatype.
- The `#[hdk_extern]` handlers `update_my_profile`, `get_my_profile` and `get_profile` are wrappers into the `handler` module, which is not part of this model.
- The entry-definition macros, `trace!`/`debug!` logging, and the exact `WasmError` wrapping are omitted. For the wrapping, only the error's kind and message are kept.
