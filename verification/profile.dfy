/**
 The profile zome's validation callback and the DNA property it reads.

 Profiles may be created, and updated unless the DNA's properties say
 `not_editable_profile`; they may never be deleted, and links may never be
 deleted. Entry content is judged by the zome's entry validator, which is an
 input here, as are `dna_info()` and the decoding of the DNA properties.
 */
module Profile {
  import opened Hdk

  /** The DNA properties this zome expects. */
  datatype Props = Props(notEditableProfile: bool)

  /**
   What the callback consults outside its argument: the answer of
   `dna_info()`, the msgpack decoding of the properties, and the zome's entry
   validator `validation::__validate_entry(entry, author)`.
   */
  datatype Env = Env(
    dnaInfo: ExternResult<DnaInfo>,
    decodeProps: SerializedBytes -> Result<Props, SerializedBytesError>,
    validateEntry: (Entry, AgentPubKey) -> ExternResult<ValidateCallbackResult>)

  const DeleteRejected := "Invalid try to delete an Entry"
  const UpdateRejected := "Invalid try to Delete Entry"
  const DeleteLinkRejected := "Invalid try to update Link"

  /** `is_not_editable_sb`: the decoded flag, or false when the properties do not decode. */
  function IsNotEditableSb(decodeProps: SerializedBytes -> Result<Props, SerializedBytesError>, encodedProps: SerializedBytes): (r: bool)
    ensures r <==> decodeProps(encodedProps) == Ok(Props(true))
  {
    match decodeProps(encodedProps)
    case Ok(props) => props.notEditableProfile
    case Err(_) => false
  }

  /** `is_not_editable`: the flag of the current DNA, or false when its info is unavailable. */
  function IsNotEditable(env: Env): (r: bool)
    ensures r <==> env.dnaInfo.Ok? && env.decodeProps(env.dnaInfo.value.properties) == Ok(Props(true))
  {
    match env.dnaInfo
    case Ok(info) => IsNotEditableSb(env.decodeProps, info.properties)
    case Err(_) => false
  }

  /**
   `validate`: the first matching case decides. Apart from three fixed
   rejections and the permissive default, the answer is the entry
   validator's, asked about the operation's own entry and author.
   */
  function Validate(env: Env, op: Op): (r: ExternResult<ValidateCallbackResult>)
    ensures op.RegisterDelete? || op.RegisterDeleteLink? ==> r.Ok? && r.value.Invalid?
    ensures r != Ok(Valid) && r != Ok(Invalid(DeleteRejected)) && r != Ok(Invalid(UpdateRejected))
            && r != Ok(Invalid(DeleteLinkRejected)) ==>
              || (op.StoreEntry? && r == env.validateEntry(op.entry, op.action.author))
              || (op.RegisterUpdate? && r == env.validateEntry(op.newEntry, op.update.author))
  {
    match op
    case StoreEntry(_, Agent(_)) => Ok(Valid)
    case StoreEntry(action, entry) => env.validateEntry(entry, action.author)
    case RegisterDelete(_, _, _) => Ok(Invalid(DeleteRejected))
    case RegisterUpdate(update, newEntry, _, _) =>
      if IsNotEditable(env) then Ok(Invalid(UpdateRejected))
      else env.validateEntry(newEntry, update.author)
    case RegisterDeleteLink(_, _) => Ok(Invalid(DeleteLinkRejected))
    case _ => Ok(Valid)
  }

  /** The operation kinds the callback leaves to its permissive default. */
  predicate DefaultAccepted(op: Op)
  {
    op.StoreRecord? || op.RegisterAgentActivity? || op.RegisterCreateLink?
  }

  /** Storing an agent key entry is valid without asking the entry validator, whatever it would say. */
  lemma AgentEntryAccepted(env: Env, action: Action, key: AgentPubKey)
    ensures Validate(env, StoreEntry(action, Agent(key))) == Ok(Valid)
  {
  }

  /** Any other stored entry gets exactly the entry validator's answer for that entry and its author. */
  lemma StoredEntryDelegated(env: Env, action: Action, entry: Entry)
    requires !entry.Agent?
    ensures Validate(env, StoreEntry(action, entry)) == env.validateEntry(entry, action.author)
  {
  }

  /** Deletes are rejected whatever the configuration, the entry validator or the author. */
  lemma DeleteAlwaysRejected(env: Env, delete: Action, originalAction: Action, originalEntry: Entry)
    ensures Validate(env, RegisterDelete(delete, originalAction, originalEntry)) == Ok(Invalid(DeleteRejected))
  {
  }

  /** Updates are rejected when the DNA forbids edits, and otherwise judged as the new entry by the updater. */
  lemma UpdateGatedByFlag(env: Env, update: Action, newEntry: Entry, originalAction: Action, originalEntry: Entry)
    ensures Validate(env, RegisterUpdate(update, newEntry, originalAction, originalEntry))
         == if IsNotEditable(env) then Ok(Invalid(UpdateRejected)) else env.validateEntry(newEntry, update.author)
  {
  }

  /** Link deletes are rejected whatever the configuration or the author. */
  lemma DeleteLinkAlwaysRejected(env: Env, deleteLink: Action, createLink: Action)
    ensures Validate(env, RegisterDeleteLink(deleteLink, createLink)) == Ok(Invalid(DeleteLinkRejected))
  {
  }

  /** Every other operation is valid, and the callback is valid for no other reason than these. */
  lemma OtherOpsAccepted(env: Env, op: Op)
    ensures DefaultAccepted(op) ==> Validate(env, op) == Ok(Valid)
    ensures Validate(env, op) == Ok(Valid) <==>
              || DefaultAccepted(op)
              || (op.StoreEntry? && (op.entry.Agent? || env.validateEntry(op.entry, op.action.author) == Ok(Valid)))
              || (op.RegisterUpdate? && !IsNotEditable(env) && env.validateEntry(op.newEntry, op.update.author) == Ok(Valid))
  {
  }

  /**
   Fail-open configuration: when `dna_info()` fails or the properties do not
   decode, an update is never rejected by the edit gate and goes to the entry
   validator.
   */
  lemma UnreadableConfigAllowsEdits(env: Env, update: Action, newEntry: Entry, originalAction: Action, originalEntry: Entry)
    requires env.dnaInfo.Err? || env.decodeProps(env.dnaInfo.value.properties).Err?
    ensures Validate(env, RegisterUpdate(update, newEntry, originalAction, originalEntry)) == env.validateEntry(newEntry, update.author)
  {
  }

  /** The configuration matters to no operation except an update. */
  lemma OnlyUpdatesReadConfig(env: Env, other: Env, op: Op)
    requires !op.RegisterUpdate?
    requires other.validateEntry == env.validateEntry
    ensures Validate(env, op) == Validate(other, op)
  {
  }
}
