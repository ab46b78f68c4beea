/** The on-chain registry of enclaves: shared configs and enclaves, transferable caps, and the
    transactions that create, change and destroy them. */
module EnclaveRegistry {
  import opened Common
  import opened ByteOrder

  type Id = nat
  type Address = nat

  datatype Pcrs = Pcrs(pcr0: seq<Byte>, pcr1: seq<Byte>, pcr2: seq<Byte>)

  /** `tag` is the witness type that a Move object is generic over. */
  datatype Config = Config(tag: string, name: string, pcrs: Pcrs, capabilityId: Id, version: nat, current: Option<Id>)
  datatype Cap = Cap(tag: string)
  datatype Enclave = Enclave(tag: string, pk: seq<Byte>, configVersion: nat, owner: Address, version: nat)

  /** A verified attestation document. */
  datatype Document = Document(pcrs: seq<seq<Byte>>, publicKey: Option<seq<Byte>>)

  /** The config and the document with which an enclave was registered: history, not an object. */
  datatype Origin = Origin(config: Id, document: Document)

  /** The objects; the VERSION constants of the published packages, with the greatest; the
      next object id, as ids are never reused. */
  datatype State = State(
    configs: map<Id, Config>, caps: map<Id, Cap>, enclaves: map<Id, Enclave>,
    published: set<nat>, latest: nat, nextId: Id, origins: map<Id, Origin>)

  datatype Abort = EInvalidPCRs | EInvalidConfigVersion | EInvalidCap | EInvalidOwner | ECannotDestroyCurrentEnclave
                 | IndexOutOfBounds | OptionIsNone

  /** A transaction whose objects do not exist or do not fit the types is not executed at all. */
  datatype Outcome = Done | NotExecuted | Aborted(e: Abort)

  /** `via` is the VERSION of the package through which a function is called. */
  datatype Tx =
    | NewCap(tag: string)
    | CreateConfig(cap: Id, name: string, pcrs: Pcrs)
    | Register(config: Id, cap: Id, document: Document, sender: Address, via: nat)
    | UpdatePcrs(config: Id, cap: Id, pcrs: Pcrs)
    | UpdateName(config: Id, cap: Id, name: string)
    | Migrate(config: Id, cap: Id, via: nat)
    | DestroyOld(enclave: Id, config: Id, cap: Id)
    | DestroyByOwner(enclave: Id, sender: Address)
    | Upgrade(version: nat)

  // ---------- the Move functions ----------

  predicate Typed(s: State, config: Id, cap: Id) {
    config in s.configs && cap in s.caps && s.configs[config].tag == s.caps[cap].tag
  }

  predicate ValidCap(s: State, config: Id, cap: Id)
    requires config in s.configs
  {
    cap == s.configs[config].capabilityId
  }

  /** Indexing a vector past its end aborts. */
  function ToPcrs(d: Document): Option<Pcrs> {
    if |d.pcrs| >= 3 then Some(Pcrs(d.pcrs[0], d.pcrs[1], d.pcrs[2])) else None
  }

  function LoadPk(config: Config, d: Document): Result<seq<Byte>, Abort> {
    match ToPcrs(d)
    case None => Err(IndexOutOfBounds)
    case Some(pcrs) =>
      if pcrs != config.pcrs then Err(EInvalidPCRs)
      else
        match d.publicKey
        case None => Err(OptionIsNone)
        case Some(pk) => Ok(pk)
  }

  function Registered(s: State, c: Id, d: Document, sender: Address, via: nat, pk: seq<Byte>): State
    requires c in s.configs
  {
    var config := s.configs[c];
    s.(enclaves := s.enclaves[s.nextId := Enclave(config.tag, pk, config.version, sender, via)],
       configs := s.configs[c := config.(current := Some(s.nextId))],
       origins := s.origins[s.nextId := Origin(c, d)],
       nextId := s.nextId + 1)
  }

  function Step(s: State, tx: Tx): (State, Outcome) {
    match tx
    case NewCap(tag) =>
      (s.(caps := s.caps[s.nextId := Cap(tag)], nextId := s.nextId + 1), Done)
    case CreateConfig(cap, name, pcrs) =>
      if cap !in s.caps then (s, NotExecuted)
      else
        (s.(configs := s.configs[s.nextId := Config(s.caps[cap].tag, name, pcrs, cap, 0, None)],
            nextId := s.nextId + 1), Done)
    case Register(c, cap, document, sender, via) =>
      if !Typed(s, c, cap) || via !in s.published then (s, NotExecuted)
      else if !ValidCap(s, c, cap) then (s, Aborted(EInvalidCap))
      else
        (match LoadPk(s.configs[c], document)
         case Err(e) => (s, Aborted(e))
         case Ok(pk) => (Registered(s, c, document, sender, via, pk), Done))
    case UpdatePcrs(c, cap, pcrs) =>
      if !Typed(s, c, cap) then (s, NotExecuted)
      else if !ValidCap(s, c, cap) then (s, Aborted(EInvalidCap))
      else (s.(configs := s.configs[c := s.configs[c].(pcrs := pcrs, current := None)]), Done)
    case UpdateName(c, cap, name) =>
      if !Typed(s, c, cap) then (s, NotExecuted)
      else if !ValidCap(s, c, cap) then (s, Aborted(EInvalidCap))
      else (s.(configs := s.configs[c := s.configs[c].(name := name)]), Done)
    case Migrate(c, cap, via) =>
      if !Typed(s, c, cap) || via !in s.published then (s, NotExecuted)
      else if !ValidCap(s, c, cap) then (s, Aborted(EInvalidCap))
      else if s.configs[c].version >= via then (s, Aborted(EInvalidConfigVersion))
      else (s.(configs := s.configs[c := s.configs[c].(version := via)]), Done)
    case DestroyOld(e, c, cap) =>
      if !Typed(s, c, cap) || e !in s.enclaves || s.enclaves[e].tag != s.configs[c].tag then (s, NotExecuted)
      else if !ValidCap(s, c, cap) then (s, Aborted(EInvalidCap))
      else if s.configs[c].current == Some(e) then (s, Aborted(ECannotDestroyCurrentEnclave))
      else if s.enclaves[e].configVersion >= s.configs[c].version then (s, Aborted(EInvalidConfigVersion))
      else (s.(enclaves := s.enclaves - {e}), Done)
    case DestroyByOwner(e, sender) =>
      if e !in s.enclaves then (s, NotExecuted)
      else if s.enclaves[e].owner != sender then (s, Aborted(EInvalidOwner))
      else (s.(enclaves := s.enclaves - {e}), Done)
    case Upgrade(version) =>
      if version < s.latest then (s, NotExecuted)
      else (s.(published := s.published + {version}, latest := version), Done)
  }

  /** Whether a live enclave is the one that a config names. */
  predicate IsCurrentEnclave(s: State, c: Id, e: Id)
    requires c in s.configs && e in s.enclaves
  {
    match s.configs[c].current
    case Some(id) => e == id
    case None => false
  }

  /** What `init` leaves behind: a cap and a config with 48 zero bytes in each PCR. */
  function Genesis(): State {
    var zero: seq<Byte> := seq(48, _ => 0);
    State(map[1 := Config("ENCLAVE", "Nautilus Attestation Enclave", Pcrs(zero, zero, zero), 0, 0, None)],
          map[0 := Cap("ENCLAVE")], map[], {0}, 0, 2, map[])
  }

  function Execute(s: State, txs: seq<Tx>): State {
    if txs == [] then s
    else
      var n := |txs| - 1;
      Step(Execute(s, txs[..n]), txs[n]).0
  }

  // ---------- what every transaction keeps ----------

  ghost predicate IdsUsed(s: State) {
    && (forall id :: id in s.configs ==> id < s.nextId && id !in s.caps && id !in s.enclaves && id !in s.origins)
    && (forall id :: id in s.caps ==> id < s.nextId && id !in s.enclaves && id !in s.origins)
    && (forall id :: id in s.enclaves ==> id in s.origins)
    && (forall id :: id in s.origins ==> id < s.nextId && s.origins[id].config in s.configs)
  }

  /** An enclave fits the document and the config that it was registered with. */
  ghost predicate EnclavesAttested(s: State)
    requires IdsUsed(s)
  {
    forall e :: e in s.enclaves ==>
      var origin := s.origins[e];
      && s.enclaves[e].tag == s.configs[origin.config].tag
      && origin.document.publicKey == Some(s.enclaves[e].pk)
      && s.enclaves[e].configVersion <= s.configs[origin.config].version
      && s.enclaves[e].version <= s.latest
  }

  /** An enclave that a config names, alive or not, was registered under this config with the
      PCRs that the config has now. */
  ghost predicate CurrentAttested(s: State)
    requires IdsUsed(s)
  {
    forall c :: c in s.configs && s.configs[c].current.Some? ==>
      var e := s.configs[c].current.value;
      && e in s.origins && s.origins[e].config == c
      && ToPcrs(s.origins[e].document) == Some(s.configs[c].pcrs)
  }

  ghost predicate Versions(s: State) {
    && (forall v :: v in s.published ==> v <= s.latest)
    && (forall c :: c in s.configs ==> s.configs[c].version <= s.latest)
  }

  ghost predicate Inv(s: State) {
    IdsUsed(s) && EnclavesAttested(s) && CurrentAttested(s) && Versions(s)
  }

  /** What no transaction undoes. */
  ghost predicate Keeps(s: State, t: State) {
    && s.nextId <= t.nextId && s.latest <= t.latest && s.published <= t.published
    && (forall c :: c in s.configs ==>
          && c in t.configs && t.configs[c].tag == s.configs[c].tag
          && t.configs[c].capabilityId == s.configs[c].capabilityId
          && s.configs[c].version <= t.configs[c].version)
    && (forall e :: e in s.origins ==> e in t.origins && t.origins[e] == s.origins[e])
    && (forall e :: e in t.enclaves && e < s.nextId ==> e in s.enclaves && t.enclaves[e] == s.enclaves[e])
  }

  /** A change of one config that keeps its tag and cap, does not lower its version, and either
      clears the current enclave or leaves it and the PCRs alone. */
  lemma ConfigKeeps(s: State, c: Id, config: Config)
    requires Inv(s) && c in s.configs
    requires config.tag == s.configs[c].tag && config.capabilityId == s.configs[c].capabilityId
    requires s.configs[c].version <= config.version <= s.latest
    requires config.current == None || (config.current == s.configs[c].current && config.pcrs == s.configs[c].pcrs)
    ensures var t := s.(configs := s.configs[c := config]);
            Inv(t) && Keeps(s, t)
  {
  }

  lemma RemoveKeeps(s: State, e: Id)
    requires Inv(s) && e in s.enclaves
    ensures var t := s.(enclaves := s.enclaves - {e});
            Inv(t) && Keeps(s, t)
  {
  }

  lemma NewCapKeeps(s: State, tag: string)
    requires Inv(s)
    ensures var t := s.(caps := s.caps[s.nextId := Cap(tag)], nextId := s.nextId + 1);
            Inv(t) && Keeps(s, t)
  {
  }

  lemma NewConfigKeeps(s: State, config: Config)
    requires Inv(s) && config.current == None && config.version == 0
    ensures var t := s.(configs := s.configs[s.nextId := config], nextId := s.nextId + 1);
            Inv(t) && Keeps(s, t)
  {
  }

  /** An enclave appears under a new id, not yet named by any config. */
  lemma NewEnclaveKeeps(s: State, c: Id, d: Document, enclave: Enclave)
    requires Inv(s) && c in s.configs
    requires enclave.tag == s.configs[c].tag && d.publicKey == Some(enclave.pk)
    requires enclave.configVersion == s.configs[c].version && enclave.version <= s.latest
    ensures var t := s.(enclaves := s.enclaves[s.nextId := enclave], origins := s.origins[s.nextId := Origin(c, d)],
                        nextId := s.nextId + 1);
            Inv(t) && Keeps(s, t)
  {
  }

  /** A config names an enclave that was registered under it with its PCRs. */
  lemma NamingKeeps(s: State, c: Id, e: Id)
    requires Inv(s) && c in s.configs && e in s.origins
    requires s.origins[e].config == c && ToPcrs(s.origins[e].document) == Some(s.configs[c].pcrs)
    ensures var t := s.(configs := s.configs[c := s.configs[c].(current := Some(e))]);
            Inv(t) && Keeps(s, t)
  {
  }

  lemma RegisterKeeps(s: State, c: Id, d: Document, sender: Address, via: nat, pk: seq<Byte>)
    requires Inv(s) && c in s.configs && via in s.published
    requires LoadPk(s.configs[c], d) == Ok(pk)
    ensures Inv(Registered(s, c, d, sender, via, pk)) && Keeps(s, Registered(s, c, d, sender, via, pk))
  {
    var enclave := Enclave(s.configs[c].tag, pk, s.configs[c].version, sender, via);
    assert via <= s.latest;
    assert c != s.nextId;
    hide Inv, Keeps;
    NewEnclaveKeeps(s, c, d, enclave);
    var middle := s.(enclaves := s.enclaves[s.nextId := enclave], origins := s.origins[s.nextId := Origin(c, d)],
                     nextId := s.nextId + 1);
    NamingKeeps(middle, c, s.nextId);
    var after := Registered(s, c, d, sender, via, pk);
    assert after == middle.(configs := middle.configs[c := middle.configs[c].(current := Some(s.nextId))]);
    KeepsTransitive(s, middle, after);
  }

  lemma UpgradeKeeps(s: State, version: nat)
    requires Inv(s) && s.latest <= version
    ensures var t := s.(published := s.published + {version}, latest := version);
            Inv(t) && Keeps(s, t)
  {
  }

  lemma NothingKeeps(s: State)
    ensures Keeps(s, s)
  {
  }

  lemma VersionFacts(s: State)
    requires Inv(s)
    ensures forall v :: v in s.published ==> v <= s.latest
    ensures forall c :: c in s.configs ==> s.configs[c].version <= s.latest
  {
  }

  lemma StepKeepsInvariant(s: State, tx: Tx)
    requires Inv(s)
    ensures Inv(Step(s, tx).0) && Keeps(s, Step(s, tx).0)
  {
    hide Inv, Keeps, LoadPk;
    VersionFacts(s);
    NothingKeeps(s);
    if Step(s, tx).1.Done? {
      match tx
      case NewCap(tag) =>
        NewCapKeeps(s, tag);
      case CreateConfig(cap, name, pcrs) =>
        NewConfigKeeps(s, Config(s.caps[cap].tag, name, pcrs, cap, 0, None));
      case Register(c, cap, document, sender, via) =>
        RegisterKeeps(s, c, document, sender, via, LoadPk(s.configs[c], document).value);
      case UpdatePcrs(c, cap, pcrs) =>
        ConfigKeeps(s, c, s.configs[c].(pcrs := pcrs, current := None));
      case UpdateName(c, cap, name) =>
        ConfigKeeps(s, c, s.configs[c].(name := name));
      case Migrate(c, cap, via) =>
        ConfigKeeps(s, c, s.configs[c].(version := via));
      case DestroyOld(e, c, cap) =>
        RemoveKeeps(s, e);
      case DestroyByOwner(e, sender) =>
        RemoveKeeps(s, e);
      case Upgrade(version) =>
        UpgradeKeeps(s, version);
    }
  }

  lemma GenesisHolds()
    ensures Inv(Genesis())
  {
  }

  lemma KeepsTransitive(a: State, b: State, c: State)
    requires Keeps(a, b) && Keeps(b, c)
    ensures Keeps(a, c)
  {
  }

  lemma {:induction false} RunKeeps(s: State, txs: seq<Tx>)
    requires Inv(s)
    ensures Inv(Execute(s, txs)) && Keeps(s, Execute(s, txs))
  {
    if txs != [] {
      hide Inv, Keeps, Step;
      var n := |txs| - 1;
      RunKeeps(s, txs[..n]);
      StepKeepsInvariant(Execute(s, txs[..n]), txs[n]);
      KeepsTransitive(s, Execute(s, txs[..n]), Execute(s, txs));
    } else {
      assert Execute(s, txs) == s;
    }
  }

  // ---------- over whole runs ----------

  ghost predicate RegisteredAt(s: State, txs: seq<Tx>, i: nat, e: Id, origin: Origin)
    requires i < |txs|
  {
    var before := Execute(s, txs[..i]);
    && txs[i].Register? && Step(before, txs[i]).1 == Done
    && before.nextId == e && origin == Origin(txs[i].config, txs[i].document)
  }

  /** A registration goes through exactly if the cap is the config's, the document shows the
      config's PCRs and it carries a key; then the new enclave is current, alive, and has that
      key, the config's version and the sender as its owner. */
  lemma RegistersExactlyWhen(s: State, c: Id, cap: Id, d: Document, sender: Address, via: nat)
    requires Inv(s) && Typed(s, c, cap) && via in s.published
    ensures var (t, outcome) := Step(s, Register(c, cap, d, sender, via));
            && (outcome == Done <==>
                  && s.configs[c].capabilityId == cap && d.publicKey.Some? && |d.pcrs| >= 3
                  && s.configs[c].pcrs == Pcrs(d.pcrs[0], d.pcrs[1], d.pcrs[2]))
            && (outcome == Done ==>
                  exists e :: && e in t.enclaves && e !in s.enclaves && c in t.configs && IsCurrentEnclave(t, c, e)
                              && d.publicKey == Some(t.enclaves[e].pk) && t.enclaves[e].owner == sender
                              && t.enclaves[e].configVersion == t.configs[c].version == s.configs[c].version
                              && t.enclaves[e].version == via && t.enclaves[e].tag == s.configs[c].tag
                              && t.enclaves.Keys == s.enclaves.Keys + {e})
            && (outcome != Done ==> t == s)
  {
    var (t, outcome) := Step(s, Register(c, cap, d, sender, via));
    if outcome == Done {
      assert s.nextId in t.enclaves && IsCurrentEnclave(t, c, s.nextId);
    }
  }

  /** The administrator can destroy an enclave through the config it was registered under exactly
      if that config has been migrated since and does not name it. */
  lemma DestroysOldExactlyWhen(s: State, e: Id, cap: Id)
    requires Inv(s) && e in s.enclaves && cap in s.caps
    requires s.configs[s.origins[e].config].capabilityId == cap && s.caps[cap].tag == s.enclaves[e].tag
    ensures var c := s.origins[e].config;
            Step(s, DestroyOld(e, c, cap)).1 == Done
            <==> s.enclaves[e].configVersion != s.configs[c].version && !IsCurrentEnclave(s, c, e)
  {
  }

  /** The recorded history is what happened: each entry was made by one successful registration. */
  lemma {:induction false} OriginIsRegistration(txs: seq<Tx>, e: Id)
    requires e in Execute(Genesis(), txs).origins
    ensures exists i :: 0 <= i < |txs| && RegisteredAt(Genesis(), txs, i, e, Execute(Genesis(), txs).origins[e])
  {
    hide Step, Genesis;
    if txs == [] {
      NoOrigins();
      assert false;
    } else {
      var n := |txs| - 1;
      var before, origin := Execute(Genesis(), txs[..n]), Execute(Genesis(), txs).origins[e];
      if e in before.origins {
        OriginIsRegistration(txs[..n], e);
        var i :| 0 <= i < n && RegisteredAt(Genesis(), txs[..n], i, e, before.origins[e]);
        OriginUnchanged(txs[..n], txs[n], e);
        assert txs[..n][..i] == txs[..i];
        assert RegisteredAt(Genesis(), txs, i, e, origin);
      } else {
        NewOrigin(before, txs[n], e);
        assert RegisteredAt(Genesis(), txs, n, e, origin);
      }
    }
  }

  lemma NoOrigins()
    ensures Genesis().origins == map[]
  {
  }

  lemma NewOrigin(s: State, tx: Tx, e: Id)
    requires e !in s.origins && e in Step(s, tx).0.origins
    ensures tx.Register? && Step(s, tx).1 == Done && s.nextId == e
    ensures Step(s, tx).0.origins[e] == Origin(tx.config, tx.document)
  {
    hide LoadPk;
  }

  lemma OriginUnchanged(txs: seq<Tx>, tx: Tx, e: Id)
    requires e in Execute(Genesis(), txs).origins
    ensures var s := Execute(Genesis(), txs);
            e in Step(s, tx).0.origins && Step(s, tx).0.origins[e] == s.origins[e]
  {
    hide Step, Genesis, Execute, IdsUsed, EnclavesAttested, CurrentAttested, Versions;
    GenesisHolds();
    RunKeeps(Genesis(), txs);
    StepKeepsInvariant(Execute(Genesis(), txs), tx);
  }

  /** After any transactions: the live enclave that a config names was registered under this
      config, with a document that has the config's PCRs of now, and has that document's key. */
  lemma CurrentEnclaveIsAttested(txs: seq<Tx>, c: Id, e: Id) returns (i: nat)
    requires var s := Execute(Genesis(), txs);
             c in s.configs && e in s.enclaves && IsCurrentEnclave(s, c, e)
    ensures i < |txs| && txs[i].Register? && txs[i].config == c
    ensures Step(Execute(Genesis(), txs[..i]), txs[i]).1 == Done && Execute(Genesis(), txs[..i]).nextId == e
    ensures var s := Execute(Genesis(), txs);
            && ToPcrs(txs[i].document) == Some(s.configs[c].pcrs)
            && txs[i].document.publicKey == Some(s.enclaves[e].pk)
  {
    hide Step, Genesis, Execute;
    GenesisHolds();
    RunKeeps(Genesis(), txs);
    OriginIsRegistration(txs, e);
    i :| 0 <= i < |txs| && RegisteredAt(Genesis(), txs, i, e, Execute(Genesis(), txs).origins[e]);
  }

  /** An enclave is current for one config at most. */
  lemma CurrentForOneConfig(txs: seq<Tx>, c: Id, d: Id)
    requires var s := Execute(Genesis(), txs);
             && c in s.configs && d in s.configs
             && s.configs[c].current.Some? && s.configs[c].current == s.configs[d].current
    ensures c == d
  {
    hide Step, Genesis, Execute;
    GenesisHolds();
    RunKeeps(Genesis(), txs);
  }

  /** While only packages with VERSION 0 are published, no migration and no removal of an old
      enclave by the administrator goes through, in any run. */
  lemma NothingMigratesAtVersionZero(txs: seq<Tx>, i: nat)
    requires Execute(Genesis(), txs).latest == 0
    requires i < |txs| && (txs[i].Migrate? || txs[i].DestroyOld?)
    ensures Step(Execute(Genesis(), txs[..i]), txs[i]).1 != Done
  {
    hide Genesis, Execute, Inv;
    GenesisHolds();
    var before := Execute(Genesis(), txs[..i]);
    RunKeeps(Genesis(), txs[..i]);
    LatestGrows(Genesis(), txs, i);
    VersionFacts(before);
  }

  lemma {:induction false} LatestGrows(s: State, txs: seq<Tx>, i: nat)
    requires Inv(s) && i <= |txs|
    ensures Execute(s, txs[..i]).latest <= Execute(s, txs).latest
    decreases |txs|
  {
    hide Inv, Step;
    if i == |txs| {
      assert txs[..i] == txs;
    } else {
      var n := |txs| - 1;
      LatestGrows(s, txs[..n], i);
      assert txs[..n][..i] == txs[..i];
      RunKeeps(s, txs[..n]);
      StepKeepsInvariant(Execute(s, txs[..n]), txs[n]);
    }
  }

  /** With an upgrade to VERSION 1 both go through. */
  lemma BothSucceedAfterUpgrade(pk: seq<Byte>)
    ensures var zero: seq<Byte> := seq(48, _ => 0);
            var s1 := Step(Genesis(), Register(1, 0, Document([zero, zero, zero], Some(pk)), 7, 0)).0;
            var s2 := Step(Step(s1, Upgrade(1)).0, Migrate(1, 0, 1));
            var s3 := Step(s2.0, UpdatePcrs(1, 0, Pcrs(zero, zero, zero))).0;
            s2.1 == Done && Step(s3, DestroyOld(2, 1, 0)).1 == Done
  {
  }

  lemma UpdateClears(s: State, c: Id, cap: Id, pcrs: Pcrs)
    requires Step(s, UpdatePcrs(c, cap, pcrs)).1 == Done
    ensures var t := Step(s, UpdatePcrs(c, cap, pcrs)).0;
            c in t.configs && t.configs[c].current == None && t.nextId == s.nextId
  {
  }

  lemma StepNamesNew(s: State, tx: Tx, c: Id, low: Id)
    requires c in s.configs && low <= s.nextId
    requires s.configs[c].current.Some? ==> s.configs[c].current.value >= low
    ensures var t := Step(s, tx).0;
            && low <= t.nextId && c in t.configs
            && (t.configs[c].current.Some? ==> t.configs[c].current.value >= low)
  {
    hide LoadPk;
  }

  /** Once the PCRs of a config are updated, no enclave from before is ever current for it again. */
  lemma {:induction false} UpdatedPcrsRetire(s: State, c: Id, cap: Id, pcrs: Pcrs, txs: seq<Tx>)
    requires Inv(s) && Step(s, UpdatePcrs(c, cap, pcrs)).1 == Done
    ensures var t := Execute(Step(s, UpdatePcrs(c, cap, pcrs)).0, txs);
            && s.nextId <= t.nextId && c in t.configs
            && (t.configs[c].current.Some? ==> t.configs[c].current.value >= s.nextId)
  {
    UpdateClears(s, c, cap, pcrs);
    hide Inv, Step;
    var start := Step(s, UpdatePcrs(c, cap, pcrs)).0;
    if txs == [] {
      assert Execute(start, txs) == start;
    } else {
      var n := |txs| - 1;
      UpdatedPcrsRetire(s, c, cap, pcrs, txs[..n]);
      StepNamesNew(Execute(start, txs[..n]), txs[n], c, s.nextId);
    }
  }

  /** A destroyed enclave never comes back. */
  lemma GoneForever(s: State, e: Id, txs: seq<Tx>)
    requires Inv(s) && e < s.nextId && e !in s.enclaves
    ensures e !in Execute(s, txs).enclaves
  {
    hide Inv, Execute;
    RunKeeps(s, txs);
  }

  ghost predicate Names(s: State, c: Id, e: Id) {
    c in s.configs && s.configs[c].current == Some(e)
  }

  /** The administrator cannot destroy the enclave that the given config names. The removal
      leaves some config naming a dead enclave exactly if another config than the given one
      names it: the config under which it was registered. */
  lemma DestroyOldDangles(s: State, e: Id, c: Id, cap: Id)
    requires Inv(s) && Step(s, DestroyOld(e, c, cap)).1 == Done
    ensures var t := Step(s, DestroyOld(e, c, cap)).0;
            && e !in t.enclaves && !Names(t, c, e)
            && ((exists d :: Names(t, d, e)) <==> Names(s, s.origins[e].config, e))
            && (Names(s, s.origins[e].config, e) ==> s.origins[e].config != c)
  {
    var t := Step(s, DestroyOld(e, c, cap)).0;
    var home := s.origins[e].config;
    if Names(s, home, e) {
      assert Names(t, home, e);
    }
  }

  /** An owner may destroy an enclave that is current: the config goes on naming it exactly then. */
  lemma DestroyByOwnerDangles(s: State, e: Id, sender: Address, c: Id)
    requires Inv(s) && Step(s, DestroyByOwner(e, sender)).1 == Done && c in s.configs
    ensures var t := Step(s, DestroyByOwner(e, sender)).0;
            e !in t.enclaves && (Names(t, c, e) <==> IsCurrentEnclave(s, c, e))
  {
  }

  // ---------- both kinds of removal do leave a config naming a dead enclave ----------

  /** The owner destroys the current enclave. */
  lemma OwnerRunDangles(pk: seq<Byte>)
    ensures var zero: seq<Byte> := seq(48, _ => 0);
            var s1 := Step(Genesis(), Register(1, 0, Document([zero, zero, zero], Some(pk)), 7, 0));
            var s2 := Step(s1.0, DestroyByOwner(2, 7));
            s1.1 == Done && s2.1 == Done && Names(s2.0, 1, 2) && 2 !in s2.0.enclaves
  {
  }

  /** A second config of the same cap, migrated after an upgrade, lets the administrator destroy
      the enclave that the first one names. */
  lemma AdministratorRunDangles(pk: seq<Byte>)
    ensures var zero: seq<Byte> := seq(48, _ => 0);
            var s1 := Step(Genesis(), Register(1, 0, Document([zero, zero, zero], Some(pk)), 7, 0));
            var s2 := Step(Step(s1.0, CreateConfig(0, "other", Pcrs(zero, zero, zero))).0, Upgrade(1));
            var s3 := Step(s2.0, Migrate(3, 0, 1));
            var s4 := Step(s3.0, DestroyOld(2, 3, 0));
            s1.1 == Done && s3.1 == Done && s4.1 == Done && Names(s4.0, 1, 2) && 2 !in s4.0.enclaves
  {
  }
}
