/** Who can change the registry: for one transaction exactly what makes it succeed, and over whole
    runs by whose transaction an enclave was removed or a config changed. */
module EnclaveAuthority {
  import opened Common
  import opened ByteOrder
  import opened EnclaveRegistry

  // ---------- one transaction ----------

  ghost predicate Fits(s: State, c: Id, cap: Id) {
    c in s.configs && cap in s.caps && s.configs[c].tag == s.caps[cap].tag
  }

  /** The cap is the one that the config was created with. */
  ghost predicate Presents(s: State, c: Id, cap: Id) {
    Fits(s, c, cap) && s.configs[c].capabilityId == cap
  }

  /** The first three entries of a document are these PCRs, in this order. */
  ghost predicate Attests(d: Document, pcrs: Pcrs) {
    |d.pcrs| >= 3 && d.pcrs[0] == pcrs.pcr0 && d.pcrs[1] == pcrs.pcr1 && d.pcrs[2] == pcrs.pcr2
  }

  /** The enclave's owner asks for its removal, or someone with the cap of a config that does not
      name it and has been migrated past the version it was registered at. */
  ghost predicate Removes(s: State, tx: Tx, e: Id)
    requires e in s.enclaves
  {
    || tx == DestroyByOwner(e, s.enclaves[e].owner)
    || (tx.DestroyOld? && tx.enclave == e && RemovesAsOld(s, e, tx.config, tx.cap))
  }

  ghost predicate RemovesAsOld(s: State, e: Id, c: Id, cap: Id)
    requires e in s.enclaves
  {
    && Presents(s, c, cap) && s.configs[c].tag == s.enclaves[e].tag
    && s.configs[c].current != Some(e) && s.enclaves[e].configVersion < s.configs[c].version
  }

  /** A transaction removes an enclave exactly if it is allowed to. */
  lemma RemovesExactlyWhen(s: State, tx: Tx, e: Id)
    requires e in s.enclaves
    ensures e !in Step(s, tx).0.enclaves <==> Removes(s, tx, e)
  {
    hide LoadPk;
  }

  /** Only the owner's call succeeds; anyone else's aborts and changes nothing. */
  lemma OwnerAloneSucceeds(s: State, e: Id, sender: Address)
    ensures var (t, outcome) := Step(s, DestroyByOwner(e, sender));
            && (outcome == Done <==> e in s.enclaves && s.enclaves[e].owner == sender)
            && (outcome == Aborted(EInvalidOwner) <==> e in s.enclaves && s.enclaves[e].owner != sender)
            && t == if outcome == Done then s.(enclaves := s.enclaves - {e}) else s
  {
  }

  /** The config that a call leaves behind, if the call may change the config. */
  ghost function Changed(s: State, tx: Tx, c: Id): Option<Config>
    requires c in s.configs
  {
    var config := s.configs[c];
    match tx
    case Register(c', cap, document, _, via) =>
      if c' == c && Presents(s, c, cap) && via in s.published && Attests(document, config.pcrs) && document.publicKey.Some?
      then Some(config.(current := Some(s.nextId))) else None
    case UpdatePcrs(c', cap, pcrs) =>
      if c' == c && Presents(s, c, cap) then Some(config.(pcrs := pcrs, current := None)) else None
    case UpdateName(c', cap, name) =>
      if c' == c && Presents(s, c, cap) then Some(config.(name := name)) else None
    case Migrate(c', cap, via) =>
      if c' == c && Presents(s, c, cap) && via in s.published && config.version < via
      then Some(config.(version := via)) else None
    case _ => None
  }

  /** A config changes only under a call for it that presents its cap, and then as that call says. */
  lemma ConfigChangesExactlyWhen(s: State, tx: Tx, c: Id)
    requires Inv(s) && c in s.configs
    ensures var (t, outcome) := Step(s, tx);
            && c in t.configs
            && match Changed(s, tx, c)
               case None => t.configs[c] == s.configs[c]
               case Some(config) => t.configs[c] == config && outcome == Done
  {
    hide EnclavesAttested, CurrentAttested, Versions;
  }

  /** The objects exist and have the types that the call asks for. */
  ghost predicate Executes(s: State, tx: Tx) {
    match tx
    case NewCap(_) => true
    case CreateConfig(cap, _, _) => cap in s.caps
    case Register(c, cap, _, _, via) => Fits(s, c, cap) && via in s.published
    case UpdatePcrs(c, cap, _) => Fits(s, c, cap)
    case UpdateName(c, cap, _) => Fits(s, c, cap)
    case Migrate(c, cap, via) => Fits(s, c, cap) && via in s.published
    case DestroyOld(e, c, cap) => Fits(s, c, cap) && e in s.enclaves && s.enclaves[e].tag == s.configs[c].tag
    case DestroyByOwner(e, _) => e in s.enclaves
    case Upgrade(version) => s.latest <= version
  }

  /** A call that presents a cap. */
  ghost predicate Guarded(tx: Tx) {
    tx.Register? || tx.UpdatePcrs? || tx.UpdateName? || tx.Migrate? || tx.DestroyOld?
  }

  /** Every call that is guarded by a cap aborts on any other cap than the config's, before it looks
      at anything else; a call that does not succeed changes nothing. */
  lemma OtherCapsAbort(s: State, tx: Tx)
    ensures Step(s, tx).1 == NotExecuted <==> !Executes(s, tx)
    ensures Step(s, tx).1 == Aborted(EInvalidCap)
       <==> Executes(s, tx) && Guarded(tx) && tx.cap != s.configs[tx.config].capabilityId
    ensures Step(s, tx).1 != Done ==> Step(s, tx).0 == s
  {
    hide LoadPk;
    if tx.Register? && Executes(s, tx) {
      LoadPkErrors(s.configs[tx.config], tx.document);
    }
  }

  /** What can be wrong with a document, in the order of the checks. */
  lemma LoadPkErrors(config: Config, d: Document)
    ensures LoadPk(config, d) == Err(IndexOutOfBounds) <==> |d.pcrs| < 3
    ensures LoadPk(config, d) == Err(EInvalidPCRs) <==> |d.pcrs| >= 3 && !Attests(d, config.pcrs)
    ensures LoadPk(config, d) == Err(OptionIsNone) <==> Attests(d, config.pcrs) && d.publicKey.None?
    ensures LoadPk(config, d).Ok? <==> Attests(d, config.pcrs) && d.publicKey.Some?
    ensures forall pcrs :: ToPcrs(d) == Some(pcrs) <==> Attests(d, pcrs)
    ensures LoadPk(config, d).Ok? ==> Some(LoadPk(config, d).value) == d.publicKey
    ensures LoadPk(config, d).Err? ==> LoadPk(config, d).error in {IndexOutOfBounds, EInvalidPCRs, OptionIsNone}
  {
  }

  /** With the config's cap each call aborts for its own reason only. */
  lemma RightCapOutcomes(s: State, tx: Tx)
    requires Executes(s, tx) && Guarded(tx) && tx.cap == s.configs[tx.config].capabilityId
    ensures
      var config, outcome := s.configs[tx.config], Step(s, tx).1;
      match tx
      case Register(_, _, d, _, _) =>
        && (outcome == Done <==> Attests(d, config.pcrs) && d.publicKey.Some?)
        && (outcome == Aborted(IndexOutOfBounds) <==> |d.pcrs| < 3)
        && (outcome == Aborted(EInvalidPCRs) <==> |d.pcrs| >= 3 && !Attests(d, config.pcrs))
      case Migrate(_, _, via) =>
        && (outcome == Done <==> config.version < via)
        && (outcome == Aborted(EInvalidConfigVersion) <==> config.version >= via)
      case DestroyOld(e, _, _) =>
        && (outcome == Done <==> config.current != Some(e) && s.enclaves[e].configVersion < config.version)
        && (outcome == Aborted(ECannotDestroyCurrentEnclave) <==> config.current == Some(e))
      case _ => outcome == Done
  {
    if tx.Register? {
      hide LoadPk;
      LoadPkErrors(s.configs[tx.config], tx.document);
    }
  }

  // ---------- whole runs ----------

  lemma {:induction false} ExecuteSplit(s: State, txs: seq<Tx>, i: nat)
    requires i <= |txs|
    ensures Execute(s, txs) == Execute(Execute(s, txs[..i]), txs[i..])
    decreases |txs|
  {
    hide Step;
    if i == |txs| {
      assert txs[..i] == txs && txs[i..] == [];
    } else {
      var n := |txs| - 1;
      ExecuteSplit(s, txs[..n], i);
      assert txs[..n][..i] == txs[..i] && txs[i..][..n - i] == txs[..n][i..];
    }
  }

  /** An enclave that was there before some transactions and is not there after them was removed by
      one of them, sent by its owner or with the cap of a config that had left it behind. */
  lemma {:induction false} RemovalIsAuthorised(s: State, txs: seq<Tx>, e: Id) returns (i: nat)
    requires Inv(s) && e in s.enclaves && e !in Execute(s, txs).enclaves
    ensures i < |txs|
    ensures var before := Execute(s, txs[..i]);
            && e in before.enclaves && before.enclaves[e] == s.enclaves[e]
            && Removes(before, txs[i], e)
    decreases |txs|
  {
    hide Step, Inv, Removes;
    assert txs != [];
    var n := |txs| - 1;
    if e in Execute(s, txs[..n]).enclaves {
      i := n;
      Unchanged(s, txs[..n], e);
      RemovesExactlyWhen(Execute(s, txs[..n]), txs[n], e);
    } else {
      i := RemovalIsAuthorised(s, txs[..n], e);
      assert txs[..n][..i] == txs[..i];
    }
  }

  lemma Unchanged(s: State, txs: seq<Tx>, e: Id)
    requires Inv(s) && e in s.enclaves && e in Execute(s, txs).enclaves
    ensures Execute(s, txs).enclaves[e] == s.enclaves[e]
  {
    hide Step, Execute, EnclavesAttested, CurrentAttested, Versions;
    RunKeeps(s, txs);
  }

  /** An enclave survives a run exactly if no transaction of it is an authorised removal. */
  lemma SurvivesExactlyWhen(s: State, txs: seq<Tx>, e: Id)
    requires Inv(s) && e in s.enclaves
    ensures e in Execute(s, txs).enclaves
       <==> forall i :: 0 <= i < |txs| && e in Execute(s, txs[..i]).enclaves ==> !Removes(Execute(s, txs[..i]), txs[i], e)
  {
    hide Step, Inv, Removes, Execute;
    if e !in Execute(s, txs).enclaves {
      var i := RemovalIsAuthorised(s, txs, e);
      assert Removes(Execute(s, txs[..i]), txs[i], e);
    } else {
      forall i | 0 <= i < |txs| && e in Execute(s, txs[..i]).enclaves
        ensures !Removes(Execute(s, txs[..i]), txs[i], e)
      {
        StillThere(s, txs, i + 1, e);
        NextState(s, txs, i);
        RemovesExactlyWhen(Execute(s, txs[..i]), txs[i], e);
      }
    }
  }

  lemma NextState(s: State, txs: seq<Tx>, i: nat)
    requires i < |txs|
    ensures Execute(s, txs[..i + 1]) == Step(Execute(s, txs[..i]), txs[i]).0
  {
    hide Step;
    assert txs[..i + 1][..i] == txs[..i];
  }

  lemma StillThere(s: State, txs: seq<Tx>, i: nat, e: Id)
    requires Inv(s) && i <= |txs| && e in s.enclaves && e in Execute(s, txs).enclaves
    ensures e in Execute(s, txs[..i]).enclaves
  {
    IdKnown(s, e);
    hide Step, Inv, Execute;
    ExecuteSplit(s, txs, i);
    RunKeeps(s, txs[..i]);
    NextIdGrows(s, txs[..i]);
    if e !in Execute(s, txs[..i]).enclaves {
      GoneForever(Execute(s, txs[..i]), e, txs[i..]);
    }
  }

  lemma NextIdGrows(s: State, txs: seq<Tx>)
    requires Inv(s)
    ensures s.nextId <= Execute(s, txs).nextId
  {
    hide Inv, Execute;
    RunKeeps(s, txs);
  }

  lemma IdKnown(s: State, e: Id)
    requires Inv(s) && e in s.enclaves
    ensures e < s.nextId
  {
  }

  /** The sender that may remove a live enclave as its owner is the one that registered it. */
  lemma {:induction false} OwnerIsRegistrant(txs: seq<Tx>, e: Id) returns (i: nat)
    requires e in Execute(Genesis(), txs).enclaves
    ensures i < |txs| && txs[i].Register? && Step(Execute(Genesis(), txs[..i]), txs[i]).1 == Done
    ensures Execute(Genesis(), txs[..i]).nextId == e && txs[i].sender == Execute(Genesis(), txs).enclaves[e].owner
    decreases |txs|
  {
    hide Step, Inv, Genesis;
    NoEnclaves();
    assert txs != [];
    var n := |txs| - 1;
    var before := Execute(Genesis(), txs[..n]);
    Appears(before, txs[n], e);
    if e in before.enclaves {
      i := OwnerIsRegistrant(txs[..n], e);
      assert txs[..n][..i] == txs[..i];
      GenesisHolds();
      RunKeeps(Genesis(), txs[..n]);
      OneStepUnchanged(before, txs[n], e);
    } else {
      i := n;
    }
  }

  lemma NoEnclaves()
    ensures Execute(Genesis(), []).enclaves == map[]
  {
  }

  lemma Appears(s: State, tx: Tx, e: Id)
    ensures e !in s.enclaves && e in Step(s, tx).0.enclaves ==>
              && tx.Register? && Step(s, tx).1 == Done && e == s.nextId
              && Step(s, tx).0.enclaves[e].owner == tx.sender
  {
    hide LoadPk;
  }

  lemma OneStepUnchanged(s: State, tx: Tx, e: Id)
    requires Inv(s) && e in s.enclaves && e in Step(s, tx).0.enclaves
    ensures Step(s, tx).0.enclaves[e] == s.enclaves[e]
  {
    hide Step, EnclavesAttested, CurrentAttested, Versions;
    StepKeepsInvariant(s, tx);
  }

  /** A config that some transactions have changed was changed by one of them that presented the cap
      of its creation. */
  lemma {:induction false} ConfigChangeIsAuthorised(s: State, txs: seq<Tx>, c: Id) returns (i: nat)
    requires Inv(s) && c in s.configs
    requires c in Execute(s, txs).configs ==> Execute(s, txs).configs[c] != s.configs[c]
    ensures i < |txs| && Guarded(txs[i]) && !txs[i].DestroyOld?
    ensures txs[i].config == c && txs[i].cap == s.configs[c].capabilityId
    ensures var before := Execute(s, txs[..i]);
            c in before.configs && Presents(before, c, txs[i].cap) && Step(before, txs[i]).1 == Done
    decreases |txs|
  {
    hide Step, Inv;
    assert txs != [];
    var n := |txs| - 1;
    var before := Execute(s, txs[..n]);
    RunKeeps(s, txs[..n]);
    ConfigChangesExactlyWhen(before, txs[n], c);
    if before.configs[c] == s.configs[c] {
      i := n;
    } else {
      i := ConfigChangeIsAuthorised(s, txs[..n], c);
      assert txs[..n][..i] == txs[..i];
    }
  }
}
