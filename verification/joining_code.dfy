/**
 The joining-code (membrane proof) checks of an admission-controlled DNA.

 A new agent presents a membrane proof when it joins. The one-byte proof
 `[0]` admits the agent read-only; any other proof must be a record signed
 by the DNA's progenitor whose entry is a joining-code payload naming the
 agent. The host services the code calls (record and payload decoding,
 signature verification, the chain query, the skip-proof property) are
 explicit inputs here.
 */
module JoiningCode {
  import opened Hdk

  /** The payload the progenitor signs into a joining code. */
  datatype JoiningCodePayload = JoiningCodePayload(role: string, recordLocator: string, registeredAgent: AgentPubKeyB64)

  /**
   The host services `validate_joining_code` calls, each a pure function of
   its arguments: decoding a membrane proof into a `Record`, decoding an entry
   into a `JoiningCodePayload`, and `verify_signature`. `hashEntry` is the
   entry hashing that an action's entry hash is computed with; the code as
   written never calls it.
   */
  datatype Host = Host(
    decodeRecord: SerializedBytes -> Result<Record, SerializedBytesError>,
    decodePayload: Entry -> ExternResult<JoiningCodePayload>,
    verifySignature: (AgentPubKey, Signature, Action) -> ExternResult<bool>,
    hashEntry: Entry -> EntryHash)

  const NoMembraneProof := "No membrane proof found"
  const InvalidPayload := "Joining code invalid payload"
  const IncorrectSignature := "Joining code invalid: incorrect signature"
  const IncorrectRegisteredAgent := "Joining code invalid: incorrect registered agent key"
  const IndexOutOfBounds := "index out of bounds: the len is 0 but the index is 0"

  /** The reason given when the joining code was signed by someone other than the progenitor. */
  function UnexpectedAuthor(signer: AgentPubKey): string
  {
    "Joining code invalid: unexpected author (" + KeyDebug(signer) + ")"
  }

  /** The read-only proof is exactly the single zero byte. */
  function IsReadOnlyProof(proof: MembraneProof): (r: bool)
    ensures r <==> |proof| == 1 && proof[0] == 0
  {
    proof == [0]
  }

  /**
   The full admission condition for a proof that is not the read-only one,
   as a single conjunction: it decodes, the progenitor signed it, its entry is
   present, the signature checks out against the progenitor's key, the entry
   decodes as a payload, and the payload names the requesting agent.
   */
  ghost predicate Admits(host: Host, progenitor: AgentPubKey, author: AgentPubKey, proof: MembraneProof)
  {
    && host.decodeRecord(proof).Ok?
    && var record := host.decodeRecord(proof).value;
    && record.action.author == progenitor
    && record.entry.Present?
    && host.verifySignature(progenitor, record.signature, record.action) == Ok(true)
    && host.decodePayload(record.entry.entry).Ok?
    && ToAgentPubKey(host.decodePayload(record.entry.entry).value.registeredAgent) == author
  }

  /**
   `validate_joining_code`: a cascade of checks, each of which may end the
   validation. Only the signature lookup failing defers the decision; only a
   decode failure is an error rather than a verdict.
   */
  function ValidateJoiningCode(host: Host, progenitor: AgentPubKey, author: AgentPubKey, membraneProof: Option<MembraneProof>)
    : (r: ExternResult<ValidateCallbackResult>)
    ensures r == Ok(Valid) <==>
              membraneProof.Some? && (IsReadOnlyProof(membraneProof.value) || Admits(host, progenitor, author, membraneProof.value))
    ensures r.Err? ==> membraneProof.Some? && !IsReadOnlyProof(membraneProof.value)
    ensures r.Ok? && r.value.UnresolvedDependencies? ==> r.value.deps == [author]
  {
    match membraneProof
    case None => Ok(Invalid(NoMembraneProof))
    case Some(proof) =>
      if IsReadOnlyProof(proof) then Ok(Valid)
      else
        match host.decodeRecord(proof)
        case Err(e) => Err(Guest(e.message))
        case Ok(record) =>
          var joiningCodeAuthor := record.action.author;
          if joiningCodeAuthor != progenitor then Ok(Invalid(UnexpectedAuthor(joiningCodeAuthor)))
          else
            match record.entry
            case Present(entry) =>
              (match host.verifySignature(progenitor, record.signature, record.action)
               case Ok(verified) =>
                 if verified then
                   match host.decodePayload(entry)
                   case Err(e) => Err(e)
                   case Ok(joiningCode) =>
                     if ToAgentPubKey(joiningCode.registeredAgent) != author then Ok(Invalid(IncorrectRegisteredAgent))
                     else Ok(Valid)
                 else Ok(Invalid(IncorrectSignature))
               case Err(_) => Ok(UnresolvedDependencies([author])))
            case _ => Ok(Invalid(InvalidPayload))
  }

  /** Without a membrane proof the agent is rejected, whoever the progenitor and author are. */
  lemma AbsentProofRejected(host: Host, progenitor: AgentPubKey, author: AgentPubKey)
    ensures ValidateJoiningCode(host, progenitor, author, None) == Ok(Invalid(NoMembraneProof))
  {
  }

  /** The read-only proof is accepted whatever the host services would answer and whoever asks. */
  lemma ReadOnlyProofAdmits(host: Host, progenitor: AgentPubKey, author: AgentPubKey)
    ensures ValidateJoiningCode(host, progenitor, author, Some([0])) == Ok(Valid)
  {
  }

  /** A proof that is neither read-only nor a record is an error, never a verdict. */
  lemma UndecodableProofIsError(host: Host, progenitor: AgentPubKey, author: AgentPubKey, proof: MembraneProof)
    requires !IsReadOnlyProof(proof) && host.decodeRecord(proof).Err?
    ensures ValidateJoiningCode(host, progenitor, author, Some(proof)) == Err(Guest(host.decodeRecord(proof).error.message))
  {
  }

  /**
   A record signed by anyone but the progenitor is rejected with a reason
   naming the signer, and the rejection does not depend on the signature
   service or the payload decoder: any other host that decodes the proof the
   same way gives the same answer.
   */
  lemma ForeignSignerRejectedFirst(host: Host, other: Host, progenitor: AgentPubKey, author: AgentPubKey, proof: MembraneProof)
    requires !IsReadOnlyProof(proof) && host.decodeRecord(proof).Ok?
    requires host.decodeRecord(proof).value.action.author != progenitor
    requires other.decodeRecord(proof) == host.decodeRecord(proof)
    ensures ValidateJoiningCode(host, progenitor, author, Some(proof))
         == ValidateJoiningCode(other, progenitor, author, Some(proof))
         == Ok(Invalid(UnexpectedAuthor(host.decodeRecord(proof).value.action.author)))
  {
  }

  /** A progenitor-signed record without its entry is an invalid payload, before any signature check. */
  lemma MissingEntryRejected(host: Host, other: Host, progenitor: AgentPubKey, author: AgentPubKey, proof: MembraneProof)
    requires !IsReadOnlyProof(proof) && host.decodeRecord(proof).Ok?
    requires host.decodeRecord(proof).value.action.author == progenitor
    requires !host.decodeRecord(proof).value.entry.Present?
    requires other.decodeRecord(proof) == host.decodeRecord(proof)
    ensures ValidateJoiningCode(host, progenitor, author, Some(proof))
         == ValidateJoiningCode(other, progenitor, author, Some(proof))
         == Ok(Invalid(InvalidPayload))
  {
  }

  /**
   Once the record is the progenitor's and carries its entry, the signature
   service decides: `Ok(false)` rejects, an error defers on the requesting
   agent (not the progenitor), and `Ok(true)` hands over to the payload.
   */
  lemma SignatureOutcome(host: Host, progenitor: AgentPubKey, author: AgentPubKey, proof: MembraneProof)
    requires !IsReadOnlyProof(proof) && host.decodeRecord(proof).Ok?
    requires host.decodeRecord(proof).value.action.author == progenitor
    requires host.decodeRecord(proof).value.entry.Present?
    ensures var record := host.decodeRecord(proof).value;
            var r := ValidateJoiningCode(host, progenitor, author, Some(proof));
            match host.verifySignature(progenitor, record.signature, record.action)
            case Ok(false) => r == Ok(Invalid(IncorrectSignature))
            case Err(_) => r == Ok(UnresolvedDependencies([author]))
            case Ok(true) =>
              match host.decodePayload(record.entry.entry)
              case Err(e) => r == Err(e)
              case Ok(payload) =>
                r == if ToAgentPubKey(payload.registeredAgent) == author then Ok(Valid) else Ok(Invalid(IncorrectRegisteredAgent))
  {
  }

  /**
   A deferral names the requesting agent, so it never names the progenitor
   unless the progenitor is the one asking; and once the signature service
   answers, the same inputs never defer.
   */
  lemma DeferralNamesRequester(host: Host, progenitor: AgentPubKey, author: AgentPubKey, membraneProof: Option<MembraneProof>)
    requires ValidateJoiningCode(host, progenitor, author, membraneProof).Ok?
    requires ValidateJoiningCode(host, progenitor, author, membraneProof).value.UnresolvedDependencies?
    ensures progenitor != author ==> progenitor !in ValidateJoiningCode(host, progenitor, author, membraneProof).value.deps
    ensures membraneProof.Some? && host.decodeRecord(membraneProof.value).Ok?
    ensures var record := host.decodeRecord(membraneProof.value).value;
            host.verifySignature(progenitor, record.signature, record.action).Err?
  {
  }

  /** The five rejection reasons are pairwise different texts. */
  lemma ReasonsDiffer(signer: AgentPubKey)
    ensures NoMembraneProof != InvalidPayload && NoMembraneProof != IncorrectSignature
    ensures NoMembraneProof != IncorrectRegisteredAgent && NoMembraneProof != UnexpectedAuthor(signer)
    ensures InvalidPayload != IncorrectSignature && InvalidPayload != IncorrectRegisteredAgent
    ensures InvalidPayload != UnexpectedAuthor(signer)
    ensures IncorrectSignature != IncorrectRegisteredAgent
    ensures IncorrectSignature != UnexpectedAuthor(signer) && IncorrectRegisteredAgent != UnexpectedAuthor(signer)
  {
  }

  /** The unexpected-author reason names the signer unambiguously. */
  lemma UnexpectedAuthorInjective(a: AgentPubKey, b: AgentPubKey)
    ensures UnexpectedAuthor(a) == UnexpectedAuthor(b) ==> a == b
  {
    if UnexpectedAuthor(a) == UnexpectedAuthor(b) {
      var prefix := "Joining code invalid: unexpected author (AgentPubKey(";
      var ua, ub := UnexpectedAuthor(a), UnexpectedAuthor(b);
      assert ua == prefix + a.b64 + "))";
      assert ub == prefix + b.b64 + "))";
      assert |a.b64| == |b.b64|;
      assert a.b64 == ua[|prefix|..|ua| - 2];
      assert b.b64 == ub[|prefix|..|ub| - 2];
    }
  }

  /**
   Every `Invalid` names exactly one failed check: the reason alone tells
   which step of the cascade rejected the proof and what the earlier steps saw.
   */
  lemma ReasonIdentifiesCheck(host: Host, progenitor: AgentPubKey, author: AgentPubKey, membraneProof: Option<MembraneProof>)
    requires ValidateJoiningCode(host, progenitor, author, membraneProof).Ok?
    requires ValidateJoiningCode(host, progenitor, author, membraneProof).value.Invalid?
    ensures var reason := ValidateJoiningCode(host, progenitor, author, membraneProof).value.reason;
            reason == NoMembraneProof <==> membraneProof.None?
    ensures var reason := ValidateJoiningCode(host, progenitor, author, membraneProof).value.reason;
            forall signer {:trigger UnexpectedAuthor(signer)} :: reason == UnexpectedAuthor(signer) ==>
              && membraneProof.Some? && host.decodeRecord(membraneProof.value).Ok?
              && host.decodeRecord(membraneProof.value).value.action.author == signer != progenitor
    ensures var reason := ValidateJoiningCode(host, progenitor, author, membraneProof).value.reason;
            reason == InvalidPayload ==>
              && membraneProof.Some? && host.decodeRecord(membraneProof.value).Ok?
              && var record := host.decodeRecord(membraneProof.value).value;
              && record.action.author == progenitor && !record.entry.Present?
    ensures var reason := ValidateJoiningCode(host, progenitor, author, membraneProof).value.reason;
            reason == IncorrectSignature ==>
              && membraneProof.Some? && host.decodeRecord(membraneProof.value).Ok?
              && var record := host.decodeRecord(membraneProof.value).value;
              && record.action.author == progenitor && record.entry.Present?
              && host.verifySignature(progenitor, record.signature, record.action) == Ok(false)
    ensures var reason := ValidateJoiningCode(host, progenitor, author, membraneProof).value.reason;
            reason == IncorrectRegisteredAgent ==>
              && membraneProof.Some? && host.decodeRecord(membraneProof.value).Ok?
              && var record := host.decodeRecord(membraneProof.value).value;
              && record.action.author == progenitor && record.entry.Present?
              && host.verifySignature(progenitor, record.signature, record.action) == Ok(true)
              && host.decodePayload(record.entry.entry).Ok?
              && ToAgentPubKey(host.decodePayload(record.entry.entry).value.registeredAgent) != author
  {
    match membraneProof
    case None =>
    case Some(proof) =>
      var record := host.decodeRecord(proof).value;
      ReasonsDiffer(record.action.author);
      forall signer | ValidateJoiningCode(host, progenitor, author, membraneProof).value.reason == UnexpectedAuthor(signer)
        ensures record.action.author == signer
      {
        ReasonsDiffer(signer);
        UnexpectedAuthorInjective(signer, record.action.author);
      }
  }

  /**
   The entry a record carries is the one its (signed) action commits to. The
   signature covers only the action, so only this ties the payload to it.
   */
  predicate EntryBound(host: Host, record: Record)
    requires record.entry.Present?
  {
    EntryHashOf(record.action) == Some(host.hashEntry(record.entry.entry))
  }

  /** The proof decodes to the given action, signed with `signature`, carrying `entry`. */
  ghost predicate Carries(host: Host, proof: MembraneProof, signature: Signature, action: Action, entry: Entry)
  {
    !IsReadOnlyProof(proof) && host.decodeRecord(proof) == Ok(Record(signature, action, Present(entry)))
  }

  /** The entry decodes to a joining-code payload that registers `agent`. */
  ghost predicate Names(host: Host, entry: Entry, agent: AgentPubKey)
  {
    host.decodePayload(entry).Ok? && ToAgentPubKey(host.decodePayload(entry).value.registeredAgent) == agent
  }

  /**
   As written, the signature binds no entry. Take any action the progenitor
   signed (a `Create` for someone's joining code, or even its `Dna` action)
   and pair it with an entry the action does not commit to, whose payload
   names the attacker: the attacker is admitted.
   */
  lemma ForgedEntryAdmitted(host: Host, progenitor: AgentPubKey, attacker: AgentPubKey,
                            signature: Signature, action: Action, forged: Entry, forgedProof: MembraneProof)
    requires action.author == progenitor
    requires host.verifySignature(progenitor, signature, action) == Ok(true)
    requires EntryHashOf(action) != Some(host.hashEntry(forged))
    requires Names(host, forged, attacker)
    requires Carries(host, forgedProof, signature, action, forged)
    ensures ValidateJoiningCode(host, progenitor, attacker, Some(forgedProof)) == Ok(Valid)
  {
  }

  /**
   The harm, as written: the progenitor signed a joining code for `intended`,
   and that genuine code turns the attacker away; the same signed action with
   its entry swapped for one naming the attacker lets the attacker in.
   */
  lemma SwappedEntryAdmitsUnsignedAgent(host: Host, progenitor: AgentPubKey, intended: AgentPubKey, attacker: AgentPubKey,
                                        signature: Signature, hash: EntryHash, genuine: Entry, forged: Entry,
                                        genuineProof: MembraneProof, forgedProof: MembraneProof)
    requires intended != attacker
    requires host.hashEntry(genuine) == hash != host.hashEntry(forged)
    requires host.verifySignature(progenitor, signature, Create(progenitor, hash)) == Ok(true)
    requires Names(host, genuine, intended) && Names(host, forged, attacker)
    requires Carries(host, genuineProof, signature, Create(progenitor, hash), genuine)
    requires Carries(host, forgedProof, signature, Create(progenitor, hash), forged)
    ensures ValidateJoiningCode(host, progenitor, intended, Some(genuineProof)) == Ok(Valid)
    ensures ValidateJoiningCode(host, progenitor, attacker, Some(genuineProof)) == Ok(Invalid(IncorrectRegisteredAgent))
    ensures ValidateJoiningCode(host, progenitor, attacker, Some(forgedProof)) == Ok(Valid)
  {
  }

  /**
   The validator with the missing check added: a progenitor-signed record
   whose entry is not the one its action commits to is an invalid payload,
   decided before the signature check. Every other input is judged as the
   code does.
   */
  function ValidateJoiningCodeBound(host: Host, progenitor: AgentPubKey, author: AgentPubKey, membraneProof: Option<MembraneProof>)
    : (r: ExternResult<ValidateCallbackResult>)
    // The direction of the characterisation below that the fix is for, spelled out.
    ensures r == Ok(Valid) && membraneProof.Some? && !IsReadOnlyProof(membraneProof.value) ==>
              && host.decodeRecord(membraneProof.value).Ok?
              && var record := host.decodeRecord(membraneProof.value).value;
              && record.entry.Present? && EntryBound(host, record)
              && Admits(host, progenitor, author, membraneProof.value)
    ensures r == Ok(Valid) <==>
              membraneProof.Some? &&
              (|| IsReadOnlyProof(membraneProof.value)
               || (&& Admits(host, progenitor, author, membraneProof.value)
                   && EntryBound(host, host.decodeRecord(membraneProof.value).value)))
  {
    match membraneProof
    case Some(proof) =>
      if && !IsReadOnlyProof(proof) && host.decodeRecord(proof).Ok?
         && var record := host.decodeRecord(proof).value;
         && record.action.author == progenitor && record.entry.Present? && !EntryBound(host, record)
      then Ok(Invalid(InvalidPayload))
      else ValidateJoiningCode(host, progenitor, author, membraneProof)
    case None => ValidateJoiningCode(host, progenitor, author, membraneProof)
  }

  /** The corrected validator differs from the code only by rejecting the records whose entry is unbound. */
  lemma BoundDiffersOnlyOnUnboundEntry(host: Host, progenitor: AgentPubKey, author: AgentPubKey, membraneProof: Option<MembraneProof>)
    ensures ValidateJoiningCodeBound(host, progenitor, author, membraneProof) != ValidateJoiningCode(host, progenitor, author, membraneProof) <==>
              && membraneProof.Some? && !IsReadOnlyProof(membraneProof.value) && host.decodeRecord(membraneProof.value).Ok?
              && var record := host.decodeRecord(membraneProof.value).value;
              && record.action.author == progenitor && record.entry.Present? && !EntryBound(host, record)
              && ValidateJoiningCode(host, progenitor, author, membraneProof) != Ok(Invalid(InvalidPayload))
  {
  }

  /**
   The forged joining codes the code admits are rejected by the corrected
   validator, while the genuine one still admits the agent it names.
   */
  lemma ForgedEntryRejectedWhenBound(host: Host, progenitor: AgentPubKey, intended: AgentPubKey, attacker: AgentPubKey,
                                     signature: Signature, action: Action, genuine: Entry, forged: Entry,
                                     genuineProof: MembraneProof, forgedProof: MembraneProof)
    requires action.author == progenitor
    requires host.verifySignature(progenitor, signature, action) == Ok(true)
    requires EntryHashOf(action) == Some(host.hashEntry(genuine)) != Some(host.hashEntry(forged))
    requires Names(host, genuine, intended)
    requires Carries(host, genuineProof, signature, action, genuine)
    requires Carries(host, forgedProof, signature, action, forged)
    ensures ValidateJoiningCodeBound(host, progenitor, attacker, Some(forgedProof)) == Ok(Invalid(InvalidPayload))
    ensures ValidateJoiningCodeBound(host, progenitor, intended, Some(genuineProof)) == Ok(Valid)
  {
  }

  /**
   `is_read_only_instance`: whether this cell joined with the read-only
   proof, judged from the first record the agent-validation-package query
   returns. The code indexes that record without checking the result is
   non-empty, so an empty result panics.
   */
  function IsReadOnlyInstance(skipProof: bool, queried: ExternResult<seq<Record>>): (r: Run<bool>)
    ensures skipProof ==> r == Returns(false)
    ensures r.Panics? <==> !skipProof && queried == Ok([])
    ensures r == Returns(true) <==>
              && !skipProof && queried.Ok? && |queried.value| > 0
              && var action := queried.value[0].action;
              && action.AgentValidationPkg? && action.membraneProof == Some([0])
  {
    if skipProof then Returns(false)
    else
      match queried
      case Err(_) => Returns(false)
      case Ok(entries) =>
        if |entries| == 0 then Panics(IndexOutOfBounds)
        else
          match entries[0].action
          case AgentValidationPkg(_, Some(memProof)) => Returns(IsReadOnlyProof(memProof))
          case _ => Returns(false)
  }

  /**
   The records a `query` filtered on the agent-validation-package action type
   returns, in chain order. Used only to relate the gate to the chain it reads.
   */
  function PkgRecords(chain: seq<Record>): (q: seq<Record>)
    ensures forall i :: 0 <= i < |q| ==> q[i].action.AgentValidationPkg?
  {
    if chain == [] then []
    else (if chain[0].action.AgentValidationPkg? then [chain[0]] else []) + PkgRecords(chain[1..])
  }

  /** The first agent-validation-package action on a chain, scanning from genesis. */
  function FirstPkg(chain: seq<Record>): (p: Option<Action>)
    ensures p.Some? ==> p.value.AgentValidationPkg?
    ensures p.None? <==> forall i :: 0 <= i < |chain| ==> !chain[i].action.AgentValidationPkg?
  {
    if chain == [] then None
    else if chain[0].action.AgentValidationPkg? then Some(chain[0].action)
    else FirstPkg(chain[1..])
  }

  /** The query result's head is the chain's first validation package, and it is empty exactly when there is none. */
  lemma {:induction false} QueryHeadIsFirstPkg(chain: seq<Record>)
    ensures PkgRecords(chain) == [] <==> FirstPkg(chain).None?
    ensures PkgRecords(chain) != [] ==> PkgRecords(chain)[0].action == FirstPkg(chain).value
  {
    if chain != [] && !chain[0].action.AgentValidationPkg? {
      QueryHeadIsFirstPkg(chain[1..]);
    }
  }

  /**
   Read against the chain itself: unless proofs are skipped, the cell is
   read-only exactly when its first validation package carries the read-only
   proof, and the gate panics when the chain has no validation package.
   */
  lemma ReadOnlyInstanceOnChain(chain: seq<Record>)
    ensures IsReadOnlyInstance(false, Ok(PkgRecords(chain)))
         == match FirstPkg(chain)
            case None => Panics(IndexOutOfBounds)
            case Some(pkg) => Returns(pkg.membraneProof.Some? && IsReadOnlyProof(pkg.membraneProof.value))
  {
    QueryHeadIsFirstPkg(chain);
  }
}
