/** The signing-key lifecycle of packages/trust/src/keys.ts. */
module Keys {
  import opened Wrappers

  datatype Status = Pending | Active | Retiring | Retired | Revoked | Compromised

  datatype KeyId = KeyId(tenant: string, id: string, version: nat)

  /** What a key signs, for whom. */
  datatype Slot = Slot(tenant: string, purpose: string, scope: string)

  datatype Key = Key(id: KeyId, identity: string, purpose: string, scope: string, status: Status, validFrom: int,
                     validUntil: Option<int>, statusChangedAt: int, revokedAt: Option<int>, compromisedAt: Option<int>,
                     predecessor: Option<(string, nat)>)
  {
    function Place(): Slot {
      Slot(id.tenant, purpose, scope)
    }
  }

  const VERIFICATION_ONLY := "verification_only"

  // ---------------------------------------------------------------- single operations

  function Successors(status: Status): set<Status> {
    match status
    case Pending => {Active, Revoked, Compromised}
    case Active => {Retiring, Revoked, Compromised}
    case Retiring => {Retired, Revoked, Compromised}
    case Retired => {Revoked, Compromised}
    case Revoked => {Compromised}
    case Compromised => {}
  }

  /** `transitionTrustKey`. */
  function Transition(key: Key, next: Status, at: int): Option<Key> {
    if next !in Successors(key.status) then None
    else Some(key.(
      compromisedAt := if next == Compromised then Some(at) else key.compromisedAt,
      revokedAt := if next == Revoked then Some(at) else key.revokedAt,
      status := next,
      statusChangedAt := at,
      validUntil := if next == Retiring then Some(at) else key.validUntil))
  }

  datatype UseError =
    | UnknownKey | TenantMismatch | WrongVersion | WrongPurpose | KeyRevoked | KeyCompromised | NotYetValid
    | KeyExpired | RetiredDenied

  /** The part of `validateTrustKey` that concerns the lifecycle. */
  predicate ValidRecord(key: Key) {
    (key.status == Retiring || key.status == Retired) ==> key.validUntil.Some?
  }

  /** `enforceKeyForSigning`: None when the key may sign. */
  function SigningError(key: Key, tenant: string, purpose: string, signedAt: int): Option<UseError> {
    if !ValidRecord(key) then Some(UnknownKey)
    else if key.id.tenant != tenant then Some(TenantMismatch)
    else if key.purpose != purpose || key.purpose == VERIFICATION_ONLY then Some(WrongPurpose)
    else if key.status == Revoked then Some(KeyRevoked)
    else if key.status == Compromised then Some(KeyCompromised)
    else if key.status != Active then Some(WrongPurpose)
    else if signedAt < key.validFrom then Some(NotYetValid)
    else if key.validUntil.Some? && signedAt > key.validUntil.value then Some(KeyExpired)
    else None
  }

  /** `enforceKeyForVerification`: None when a signature of that time may be accepted. */
  function VerificationError(key: Key, tenant: string, version: nat, purpose: string, signedAt: int, historical: bool)
    : Option<UseError>
  {
    if key.id.tenant != tenant then Some(TenantMismatch)
    else if key.id.version != version then Some(WrongVersion)
    else if key.purpose != purpose && key.purpose != VERIFICATION_ONLY then Some(WrongPurpose)
    else if key.status == Revoked then Some(KeyRevoked)
    else if key.status == Compromised then Some(KeyCompromised)
    else if key.status == Pending then Some(NotYetValid)
    else if key.status == Retired && !historical then Some(RetiredDenied)
    else if signedAt < key.validFrom then Some(NotYetValid)
    else
      var cutoff := if key.validUntil.Some? then key.validUntil
                    else if key.status == Retiring || key.status == Retired then Some(key.statusChangedAt) else None;
      if cutoff.Some? && signedAt > cutoff.value then Some(KeyExpired) else None
  }

  // ---------------------------------------------------------------- what is accepted, exactly

  /** The signing limit a key has: its registered one, or the time its retirement was recorded. */
  predicate WithinCutoff(key: Key, signedAt: int) {
    && (key.validUntil.Some? ==> signedAt <= key.validUntil.value)
    && (key.validUntil.None? && (key.status == Retiring || key.status == Retired) ==> signedAt <= key.statusChangedAt)
  }

  /** A key signs exactly when it is active, of that tenant and purpose, not for verification only, and the
      time is within its validity. */
  lemma SigningExact(key: Key, tenant: string, purpose: string, signedAt: int)
    ensures SigningError(key, tenant, purpose, signedAt).None? <==>
      && key.status == Active && key.id.tenant == tenant
      && key.purpose == purpose && purpose != VERIFICATION_ONLY
      && key.validFrom <= signedAt && (key.validUntil.Some? ==> signedAt <= key.validUntil.value)
  {
  }

  /** A signature is accepted exactly when tenant and version are the key's, the purpose is too unless the
      key only verifies, the key is neither pending nor distrusted, a retired key is admitted, and the time
      lies between the start of validity and the cutoff. */
  lemma VerificationExact(key: Key, tenant: string, version: nat, purpose: string, signedAt: int, historical: bool)
    ensures VerificationError(key, tenant, version, purpose, signedAt, historical).None? <==>
      && key.id.tenant == tenant && key.id.version == version
      && (key.purpose == purpose || key.purpose == VERIFICATION_ONLY)
      && (key.status == Active || key.status == Retiring || (key.status == Retired && historical))
      && key.validFrom <= signedAt && WithinCutoff(key, signedAt)
  {
  }

  /** What each refusal to verify is for. */
  lemma VerificationRefusals(key: Key, tenant: string, version: nat, purpose: string, signedAt: int, historical: bool)
    ensures var e := VerificationError(key, tenant, version, purpose, signedAt, historical);
      && (e == Some(TenantMismatch) <==> key.id.tenant != tenant)
      && (e == Some(WrongVersion) ==> key.id.version != version)
      && (e == Some(WrongPurpose) ==> key.purpose != purpose && key.purpose != VERIFICATION_ONLY)
      && (e == Some(KeyRevoked) ==> key.status == Revoked) && (e == Some(KeyCompromised) ==> key.status == Compromised)
      && (e == Some(RetiredDenied) ==> key.status == Retired && !historical)
      && (e == Some(NotYetValid) ==> key.status == Pending || signedAt < key.validFrom)
      && (e == Some(KeyExpired) ==> !WithinCutoff(key, signedAt)) && e != Some(UnknownKey)
  {
  }

  /** What each refusal to sign is for. */
  lemma SigningRefusals(key: Key, tenant: string, purpose: string, signedAt: int)
    ensures var e := SigningError(key, tenant, purpose, signedAt);
      && (e == Some(UnknownKey) <==> !ValidRecord(key))
      && (e == Some(TenantMismatch) ==> key.id.tenant != tenant)
      && (e == Some(WrongPurpose) ==> key.purpose != purpose || purpose == VERIFICATION_ONLY
                                      || key.status == Pending || key.status == Retiring || key.status == Retired)
      && (e == Some(KeyRevoked) ==> key.status == Revoked) && (e == Some(KeyCompromised) ==> key.status == Compromised)
      && (e == Some(NotYetValid) ==> signedAt < key.validFrom)
      && (e == Some(KeyExpired) ==> key.validUntil.Some? && signedAt > key.validUntil.value)
      && e != Some(WrongVersion) && e != Some(RetiredDenied)
  {
  }

  /** How far a trusted key has come. */
  function Stage(status: Status): nat {
    match status
    case Pending => 0
    case Active => 1
    case Retiring => 2
    case Retired => 3
    case _ => 4
  }

  predicate Trusted(status: Status) {
    status != Revoked && status != Compromised
  }

  /** A trusted key takes one stage after the other; it may be revoked at any stage, and any key may be
      declared compromised once. A transition changes status, its time, and the field of its own kind. */
  lemma TransitionExact(key: Key, next: Status, at: int)
    ensures var r := Transition(key, next, at);
      && (r.Some? <==>
          || (next == Compromised && key.status != Compromised)
          || (next == Revoked && Trusted(key.status))
          || (Trusted(next) && Trusted(key.status) && Stage(next) == Stage(key.status) + 1))
      && (r.Some? ==>
          && r.value.id == key.id && r.value.identity == key.identity
          && r.value.purpose == key.purpose && r.value.scope == key.scope
          && r.value.validFrom == key.validFrom && r.value.predecessor == key.predecessor
          && r.value.status == next && r.value.statusChangedAt == at
          && r.value.validUntil == (if next == Retiring then Some(at) else key.validUntil)
          && r.value.revokedAt == (if next == Revoked then Some(at) else key.revokedAt)
          && r.value.compromisedAt == (if next == Compromised then Some(at) else key.compromisedAt))
  {
  }

  // ---------------------------------------------------------------- runs of one key

  /** A requested transition and its time. */
  datatype Change = Change(status: Status, at: int)

  /** The key after a run, when every transition of it was legal. */
  function Evolve(key: Key, changes: seq<Change>): Option<Key>
    decreases |changes|
  {
    if changes == [] then Some(key)
    else
      match Transition(key, changes[0].status, changes[0].at)
      case None => None
      case Some(next) => Evolve(next, changes[1..])
  }

  /** Transitions still possible at most. */
  function Remaining(status: Status): nat {
    match status
    case Pending => 5
    case Active => 4
    case Retiring => 3
    case Retired => 2
    case Revoked => 1
    case Compromised => 0
  }

  /** No run makes more than five transitions. */
  lemma {:induction false} AtMostFiveTransitions(key: Key, changes: seq<Change>)
    requires Evolve(key, changes).Some?
    ensures |changes| <= Remaining(key.status) <= 5
    decreases |changes|
  {
    if changes != [] {
      AtMostFiveTransitions(Transition(key, changes[0].status, changes[0].at).value, changes[1..]);
    }
  }

  /** The full lifecycle makes all five. */
  lemma FiveTransitionsHappen(key: Key, at: int)
    requires key.status == Pending
    ensures exists changes: seq<Change> :: |changes| == 5 && Evolve(key, changes).Some?
  {
    var a, b, c := Change(Active, at), Change(Retiring, at), Change(Retired, at);
    var d, e := Change(Revoked, at), Change(Compromised, at);
    var changes := [a, b, c, d, e];
    var k1 := Transition(key, Active, at).value;
    var k2 := Transition(k1, Retiring, at).value;
    var k3 := Transition(k2, Retired, at).value;
    var k4 := Transition(k3, Revoked, at).value;
    assert changes[1..] == [b, c, d, e] && [b, c, d, e][1..] == [c, d, e] && [c, d, e][1..] == [d, e] && [d, e][1..] == [e];
    assert [e][1..] == [];
    assert Evolve(k4, [e]).Some?;
    assert Evolve(k3, [d, e]) == Evolve(k4, [e]);
    assert Evolve(k2, [c, d, e]) == Evolve(k3, [d, e]);
    assert Evolve(k1, [b, c, d, e]) == Evolve(k2, [c, d, e]);
  }

  /** What every key keeps that was registered as pending. */
  predicate Consistent(key: Key) {
    && ValidRecord(key)
    && (key.status == Revoked ==> key.revokedAt.Some?)
    && (key.status == Compromised <==> key.compromisedAt.Some?)
    && (key.revokedAt.Some? ==> key.status == Revoked || key.status == Compromised)
  }

  lemma {:induction false} RunKeepsConsistent(key: Key, changes: seq<Change>)
    requires Consistent(key) && Evolve(key, changes).Some?
    ensures var last := Evolve(key, changes).value;
      Consistent(last) && last.id == key.id && last.Place() == key.Place() && last.validFrom == key.validFrom
    decreases |changes|
  {
    if changes != [] {
      RunKeepsConsistent(Transition(key, changes[0].status, changes[0].at).value, changes[1..]);
    }
  }

  /** Retiring and retired keys carry a signing cutoff. */
  lemma RetiredKeysHaveCutoff(key: Key, changes: seq<Change>)
    requires key.status == Pending && key.revokedAt.None? && key.compromisedAt.None? && Evolve(key, changes).Some?
    ensures var last := Evolve(key, changes).value;
      last.status == Retiring || last.status == Retired ==> last.validUntil.Some?
  {
    RunKeepsConsistent(key, changes);
  }

  /** Revocation and compromise are never undone. */
  lemma {:induction false} DistrustIsFinal(key: Key, changes: seq<Change>)
    requires (key.status == Revoked || key.status == Compromised) && Evolve(key, changes).Some?
    ensures var last := Evolve(key, changes).value;
      last.status == Compromised || (last.status == Revoked && changes == [])
      || (last.status == Revoked && last == key)
    decreases |changes|
  {
    if changes != [] {
      DistrustIsFinal(Transition(key, changes[0].status, changes[0].at).value, changes[1..]);
    }
  }

  // ---------------------------------------------------------------- signing, then verifying later

  /** The time of the run's transition to retiring, if it has one. */
  function RetiredAt(changes: seq<Change>): Option<int>
    decreases |changes|
  {
    if changes == [] then None
    else if changes[0].status == Retiring then Some(changes[0].at) else RetiredAt(changes[1..])
  }

  /** A retired key only moves on to distrust, so its cutoff stands. */
  lemma {:induction false} CutoffStands(key: Key, changes: seq<Change>)
    requires key.status != Pending && key.status != Active && Evolve(key, changes).Some?
    ensures Evolve(key, changes).value.validUntil == key.validUntil
    ensures Evolve(key, changes).value.status != Pending && Evolve(key, changes).value.status != Active
    decreases |changes|
  {
    if changes != [] {
      CutoffStands(Transition(key, changes[0].status, changes[0].at).value, changes[1..]);
    }
  }

  lemma FromActive(key: Key, changes: seq<Change>)
    requires key.status == Active && Evolve(key, changes).Some?
    ensures changes == [] ==> Evolve(key, changes).value == key
    ensures changes != [] ==> Evolve(key, changes).value.status != Pending && Evolve(key, changes).value.status != Active
    ensures changes != [] && changes[0].status == Retiring ==> Evolve(key, changes).value.validUntil == Some(changes[0].at)
    ensures changes != [] && changes[0].status != Retiring ==> Distrusted(Evolve(key, changes).value)
  {
    if changes != [] {
      var next := Transition(key, changes[0].status, changes[0].at).value;
      CutoffStands(next, changes[1..]);
      if changes[0].status != Retiring {
        DistrustIsFinal(next, changes[1..]);
      }
    }
  }

  predicate Distrusted(key: Key) {
    key.status == Revoked || key.status == Compromised
  }

  /** A signature that a key permitted at time s is accepted after any further run, under the tenant, version
      and purpose asked for, exactly when these are the key's, the key has not been revoked or compromised,
      retired keys are admitted if it is retired, and s does not follow the time retirement began. */
  lemma PermittedThenVerifies(key: Key, changes: seq<Change>, signer: string, signedFor: string, s: int,
                              tenant: string, version: nat, purpose: string, historical: bool)
    requires SigningError(key, signer, signedFor, s).None? && Evolve(key, changes).Some?
    ensures var last := Evolve(key, changes).value;
      VerificationError(last, tenant, version, purpose, s, historical).None?
      <==> tenant == signer && version == key.id.version && purpose == signedFor
           && !Distrusted(last) && (last.status == Retired ==> historical)
           && (changes != [] ==> s <= changes[0].at)
  {
    hide VerificationError;
    SigningExact(key, signer, signedFor, s);
    FromActive(key, changes);
    EvolveKeepsUse(key, changes);
    VerificationExact(Evolve(key, changes).value, tenant, version, purpose, s, historical);
  }

  lemma {:induction false} EvolveKeepsUse(key: Key, changes: seq<Change>)
    requires Evolve(key, changes).Some?
    ensures var last := Evolve(key, changes).value;
      last.id == key.id && last.purpose == key.purpose && last.validFrom == key.validFrom
    decreases |changes|
  {
    if changes != [] {
      EvolveKeepsUse(Transition(key, changes[0].status, changes[0].at).value, changes[1..]);
    }
  }

  /** Retirement replaces the registered limit: a time after that limit, at which the key could not sign,
      verifies once the key retires later. The two limits agree exactly when retirement does not come after
      the registered limit. */
  lemma RetirementMovesTheLimit(key: Key, at: int, s: int)
    requires ValidRecord(key) && key.status == Active && key.purpose != VERIFICATION_ONLY && key.validUntil.Some?
    requires s >= key.validFrom
    ensures var retiring := Transition(key, Retiring, at).value;
      var verifies := VerificationError(retiring, key.id.tenant, key.id.version, key.purpose, s, false).None?;
      && (verifies <==> s <= at)
      && (verifies && SigningError(key, key.id.tenant, key.purpose, s).Some? <==> key.validUntil.value < s <= at)
  {
  }

  // ---------------------------------------------------------------- rotation

  type Keyring = map<KeyId, Key>

  predicate KeyedById(keys: Keyring) {
    forall id :: id in keys ==> keys[id].id == id
  }

  predicate ActiveIn(keys: Keyring, id: KeyId, slot: Slot) {
    id in keys && keys[id].status == Active && keys[id].Place() == slot
  }

  /** At most one active key per tenant, purpose and scope. */
  ghost predicate OneActive(keys: Keyring) {
    forall slot, a, b :: ActiveIn(keys, a, slot) && ActiveIn(keys, b, slot) ==> a == b
  }

  datatype RotateError = NotAReplacement | PredecessorMismatch | SuccessionMismatch | KeyExists

  /** The key that a replacement names as its predecessor. */
  function Prior(replacement: Key): Option<KeyId> {
    match replacement.predecessor
    case None => None
    case Some((id, version)) => Some(KeyId(replacement.id.tenant, id, version))
  }

  /** `rotateTrustKeyTransactional` as a whole. */
  function Rotate(keys: Keyring, replacement: Key, at: int): Result<Keyring, RotateError> {
    if replacement.status != Pending || Prior(replacement).None? then Err(NotAReplacement)
    else
      var prior := Prior(replacement).value;
      if !ActiveIn(keys, prior, replacement.Place()) then Err(PredecessorMismatch)
      else if replacement.id.version != prior.version + 1 || replacement.identity != keys[prior].identity then Err(SuccessionMismatch)
      else if replacement.id in keys then Err(KeyExists)
      else Ok(keys[prior := Transition(keys[prior], Retiring, at).value]
                  [replacement.id := Transition(replacement, Active, at).value])
  }

  /** The stored keys. A failed rotation leaves them as they were. */
  class KeyStore {
    var keys: Keyring

    constructor ()
      ensures keys == map[]
    {
      keys := map[];
    }

    method GetActive(slot: Slot) returns (r: Option<KeyId>)
      ensures r.Some? ==> ActiveIn(keys, r.value, slot)
      ensures r.None? ==> forall id :: !ActiveIn(keys, id, slot)
    {
      if id :| id in keys && ActiveIn(keys, id, slot) {
        r := Some(id);
      } else {
        r := None;
      }
    }

    /** The conditional update of the lifecycle repository. */
    static method Update(keys: Keyring, key: Key, expected: Status) returns (r: Option<Keyring>)
      ensures r == if key.id in keys && keys[key.id].status == expected then Some(keys[key.id := key]) else None
    {
      r := if key.id in keys && keys[key.id].status == expected then Some(keys[key.id := key]) else None;
    }

    method RotateTrustKey(replacement: Key, at: int) returns (r: Result<Key, RotateError>)
      requires KeyedById(keys) && OneActive(keys)
      modifies this
      ensures r.Err? ==> keys == old(keys) && Rotate(keys, replacement, at) == Err(r.error)
      ensures r.Ok? ==> Rotate(old(keys), replacement, at) == Ok(keys) && ActiveIn(keys, r.value.id, replacement.Place())
                        && keys[r.value.id] == r.value
    {
      if replacement.status != Pending || replacement.predecessor.None? {
        return Err(NotAReplacement);
      }
      var slot := replacement.Place();
      var found := GetActive(slot);
      if found.None? || found.value.id != replacement.predecessor.value.0 || found.value.version != replacement.predecessor.value.1 {
        return Err(PredecessorMismatch);
      }
      var active := keys[found.value];
      if replacement.id.version != active.id.version + 1 || replacement.identity != active.identity {
        return Err(SuccessionMismatch);
      }
      var retiring := Transition(active, Retiring, at).value;
      var updated := Update(keys, retiring, Active);
      if replacement.id in updated.value {
        return Err(KeyExists);
      }
      var inserted := updated.value[replacement.id := replacement];
      var activated := Transition(replacement, Active, at).value;
      var final := Update(inserted, activated, Pending);
      assert final.value == keys[active.id := retiring][replacement.id := activated];
      keys := final.value;
      r := Ok(activated);
    }
  }

  /** A rotation moves the slot from the predecessor to the replacement. */
  lemma RotationMovesTheSlot(keys: Keyring, replacement: Key, at: int)
    requires KeyedById(keys) && OneActive(keys) && Rotate(keys, replacement, at).Ok?
    ensures var after, prior := Rotate(keys, replacement, at).value, Prior(replacement).value;
      && KeyedById(after) && OneActive(after) && ActiveIn(after, replacement.id, replacement.Place())
      && prior in after && after[prior].status == Retiring && after[prior].validUntil == Some(at)
      && (forall id :: id in keys && id != prior ==> id in after && after[id] == keys[id])
  {
    var after := Rotate(keys, replacement, at).value;
    forall slot, a, b | ActiveIn(after, a, slot) && ActiveIn(after, b, slot)
      ensures a == b
    {
      if slot == replacement.Place() {
        assert forall id :: ActiveIn(after, id, slot) && id != replacement.id ==> ActiveIn(keys, id, slot);
      } else {
        assert ActiveIn(keys, a, slot) && ActiveIn(keys, b, slot);
      }
    }
  }

  /** After a rotation the predecessor signs nothing more, and what it was permitted to sign verifies
      exactly up to the rotation. */
  lemma RotationKeepsOldSignatures(keys: Keyring, replacement: Key, at: int, s: int, historical: bool)
    requires KeyedById(keys) && OneActive(keys) && Rotate(keys, replacement, at).Ok?
    ensures var prior := Prior(replacement).value;
      var before, after := keys[prior], Rotate(keys, replacement, at).value[prior];
      && (forall time :: SigningError(after, prior.tenant, before.purpose, time).Some?)
      && (SigningError(before, prior.tenant, before.purpose, s).None? ==>
          (VerificationError(after, prior.tenant, prior.version, before.purpose, s, historical).None? <==> s <= at))
  {
    var prior := Prior(replacement).value;
    if SigningError(keys[prior], prior.tenant, keys[prior].purpose, s).None? {
      var change := Change(Retiring, at);
      assert [change][1..] == [];
      assert Evolve(keys[prior], [change]) == Transition(keys[prior], Retiring, at);
      PermittedThenVerifies(keys[prior], [change], prior.tenant, keys[prior].purpose, s, prior.tenant, prior.version,
                            keys[prior].purpose, historical);
    }
  }

  /** A rotation goes through exactly for a pending replacement with a new identifier that names the slot's
      active key as its predecessor, continues its version and keeps its identity. */
  lemma RotationExact(keys: Keyring, replacement: Key, at: int)
    requires KeyedById(keys) && OneActive(keys)
    ensures Rotate(keys, replacement, at).Ok? <==>
      && replacement.status == Pending && replacement.id !in keys
      && exists prior :: Continues(keys, prior, replacement)
    ensures Rotate(keys, replacement, at).Ok? ==>
      && Rotate(keys, replacement, at).value[replacement.id] == replacement.(status := Active, statusChangedAt := at)
      && Rotate(keys, replacement, at).value.Keys == keys.Keys + {replacement.id}
  {
    if exists prior :: Continues(keys, prior, replacement) {
      var prior :| Continues(keys, prior, replacement);
      assert prior.tenant == replacement.id.tenant;
      assert Prior(replacement) == Some(prior);
    }
    if Rotate(keys, replacement, at).Ok? {
      assert Continues(keys, Prior(replacement).value, replacement);
    }
  }

  /** prior is active for the same tenant, purpose and scope, and the replacement is its next version. */
  predicate Continues(keys: Keyring, prior: KeyId, replacement: Key) {
    && prior in keys && keys[prior].status == Active && prior.tenant == replacement.id.tenant
    && keys[prior].purpose == replacement.purpose && keys[prior].scope == replacement.scope
    && replacement.predecessor == Some((prior.id, prior.version))
    && replacement.id.version == prior.version + 1 && replacement.identity == keys[prior].identity
  }

  // ---------------------------------------------------------------- runs of the keyring

  datatype Action =
    | Register(key: Key)
    | Move(id: KeyId, status: Status, at: int)
    | Replace(replacement: Key, at: int)

  /** A pending key is stored; a single key changes status, activation only into a free slot; or a key is
      rotated. Anything else is refused and changes nothing. */
  function Apply(keys: Keyring, action: Action): Keyring {
    match action
    case Register(key) => if key.id !in keys && key.status == Pending then keys[key.id := key] else keys
    case Move(id, status, at) =>
      if id !in keys || Transition(keys[id], status, at).None? then keys
      else if status == Active && (exists other :: other in keys && ActiveIn(keys, other, keys[id].Place())) then keys
      else keys[id := Transition(keys[id], status, at).value]
    case Replace(replacement, at) =>
      match Rotate(keys, replacement, at)
      case Ok(after) => after
      case Err(_) => keys
  }

  function ApplyAll(keys: Keyring, actions: seq<Action>): Keyring
    decreases |actions|
  {
    if actions == [] then keys else ApplyAll(Apply(keys, actions[0]), actions[1..])
  }

  lemma MoveKeepsOneActive(keys: Keyring, id: KeyId, status: Status, at: int)
    requires KeyedById(keys) && OneActive(keys)
    ensures KeyedById(Apply(keys, Move(id, status, at))) && OneActive(Apply(keys, Move(id, status, at)))
  {
    var after := Apply(keys, Move(id, status, at));
    if after != keys {
      forall slot, a, b | ActiveIn(after, a, slot) && ActiveIn(after, b, slot)
        ensures a == b
      {
        assert a != id ==> ActiveIn(keys, a, slot);
        assert b != id ==> ActiveIn(keys, b, slot);
      }
    }
  }

  lemma {:induction false} RunStaysOneActive(keys: Keyring, actions: seq<Action>)
    requires KeyedById(keys) && OneActive(keys)
    ensures KeyedById(ApplyAll(keys, actions)) && OneActive(ApplyAll(keys, actions))
    decreases |actions|
  {
    if actions != [] {
      match actions[0] {
        case Register(key) =>
          assert forall slot, a :: ActiveIn(Apply(keys, actions[0]), a, slot) ==> ActiveIn(keys, a, slot);
        case Move(id, status, at) => MoveKeepsOneActive(keys, id, status, at);
        case Replace(replacement, at) =>
          if Rotate(keys, replacement, at).Ok? {
            RotationMovesTheSlot(keys, replacement, at);
          }
      }
      RunStaysOneActive(Apply(keys, actions[0]), actions[1..]);
    }
  }

  /** Over any run each tenant, purpose and scope has at most one active key. */
  lemma RunKeepsOneActive(keys: Keyring, actions: seq<Action>, a: KeyId, b: KeyId)
    requires KeyedById(keys) && OneActive(keys)
    ensures KeyedById(ApplyAll(keys, actions)) && OneActive(ApplyAll(keys, actions))
    ensures var after := ApplyAll(keys, actions);
      (a in after && b in after && after[a].status == Active && after[b].status == Active && a.tenant == b.tenant
       && after[a].purpose == after[b].purpose && after[a].scope == after[b].scope) ==> a == b
  {
    RunStaysOneActive(keys, actions);
    var after := ApplyAll(keys, actions);
    if a in after && b in after && after[a].status == Active && after[b].status == Active
       && after[a].purpose == after[b].purpose && after[a].scope == after[b].scope && a.tenant == b.tenant {
      assert ActiveIn(after, a, after[a].Place()) && ActiveIn(after, b, after[a].Place());
    }
  }
}
