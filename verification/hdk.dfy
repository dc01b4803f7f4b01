/**
 The values of the Holochain development kit that the two validators read.

 Only the parts the validators inspect are kept: an action's author and,
 for the agent-validation package, its membrane proof; a record's signature,
 action and entry; the variants of the validation `Op`. The entry hash an
 entry-creating action commits to is kept too, though the validators never
 read it: the corrected joining-code validator checks it. Action hashes,
 timestamps and sequence numbers are dropped.
 */
module Hdk {

  newtype byte = b: int | 0 <= b < 256

  /** Raw serialized bytes (msgpack) as handed over by the host. */
  type SerializedBytes = seq<byte>

  /** A membrane proof is a blob of serialized bytes. */
  type MembraneProof = SerializedBytes

  datatype Option<+T> = None | Some(value: T)

  /** Rust's `Result`; `ExternResult<T>` fixes the error to a `WasmError`. */
  datatype Result<+T, +E> = Ok(value: T) | Err(error: E)

  /** The inner kinds of a wasm error that these validators can produce or pass on. */
  datatype WasmError = Guest(message: string) | Serialize(message: string) | Host(message: string)

  type ExternResult<T> = Result<T, WasmError>

  /** The error of a failed msgpack decode, reduced to its display text. */
  datatype SerializedBytesError = SerializedBytesError(message: string)

  /** How a call into the guest ends: with a value, or with a Rust panic that aborts the call. */
  datatype Run<+T> = Returns(value: T) | Panics(message: string)

  /** An agent's public key, identified by its base-64 text and compared by value. */
  datatype AgentPubKey = AgentPubKey(b64: string)

  /** The serde-friendly base-64 form of a key, as carried in a joining-code payload. */
  datatype AgentPubKeyB64 = AgentPubKeyB64(key: AgentPubKey)

  /** `AgentPubKey::from(AgentPubKeyB64)`: the same key in its binary form. */
  function ToAgentPubKey(k: AgentPubKeyB64): AgentPubKey
  {
    k.key
  }

  /** The `{:?}` rendering of a key, used inside one diagnostic message. */
  function KeyDebug(k: AgentPubKey): string
  {
    "AgentPubKey(" + k.b64 + ")"
  }

  datatype Signature = Signature(bytes: seq<byte>)

  /** Entry content. App, capability and countersigning entries are opaque bytes here. */
  datatype Entry =
    | Agent(key: AgentPubKey)
    | App(bytes: seq<byte>)
    | CapClaim(bytes: seq<byte>)
    | CapGrant(bytes: seq<byte>)
    | CounterSign(bytes: seq<byte>)

  /** The hash an entry-creating action commits to. */
  datatype EntryHash = EntryHash(bytes: seq<byte>)

  /** Whether a record carries its entry. */
  datatype RecordEntry = Present(entry: Entry) | Hidden | NA | NotStored

  /** A chain action. Every variant has an author; only the validation package is looked into. */
  datatype Action =
    | Dna(author: AgentPubKey)
    | AgentValidationPkg(author: AgentPubKey, membraneProof: Option<MembraneProof>)
    | InitZomesComplete(author: AgentPubKey)
    | Create(author: AgentPubKey, entryHash: EntryHash)
    | Update(author: AgentPubKey, entryHash: EntryHash)
    | Delete(author: AgentPubKey)
    | CreateLink(author: AgentPubKey)
    | DeleteLink(author: AgentPubKey)
    | OpenChain(author: AgentPubKey)
    | CloseChain(author: AgentPubKey)

  /** `Action::entry_hash()`: the entry hash of an entry-creating action, if any. */
  function EntryHashOf(a: Action): (h: Option<EntryHash>)
    ensures h.Some? <==> a.Create? || a.Update?
  {
    match a
    case Create(_, hash) => Some(hash)
    case Update(_, hash) => Some(hash)
    case _ => None
  }

  /** A signed action together with its entry, as stored on a source chain. */
  datatype Record = Record(signature: Signature, action: Action, entry: RecordEntry)

  /** What a validation callback tells the host. */
  datatype ValidateCallbackResult =
    | Valid
    | Invalid(reason: string)
    | UnresolvedDependencies(deps: seq<AgentPubKey>)

  /**
   The DHT operations a validation callback is asked about. The signed
   actions are reduced to the actions themselves: the signature and hash
   around them are never read by the profile validator.
   */
  datatype Op =
    | StoreRecord(record: Record)
    | StoreEntry(action: Action, entry: Entry)
    | RegisterUpdate(update: Action, newEntry: Entry, originalAction: Action, originalEntry: Entry)
    | RegisterDelete(delete: Action, originalAction: Action, originalEntry: Entry)
    | RegisterAgentActivity(activity: Action)
    | RegisterCreateLink(createLink: Action)
    | RegisterDeleteLink(deleteLink: Action, createLink: Action)

  /** The part of `dna_info()` the profile zome reads: the DNA's serialized properties. */
  datatype DnaInfo = DnaInfo(properties: SerializedBytes)
}
