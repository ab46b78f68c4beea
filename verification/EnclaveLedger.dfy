/** The registry's functions as they run: they change the fields of shared objects in place and
    abort where the Move code asserts. */
module EnclaveLedger {
  import opened Common
  import opened ByteOrder
  import opened EnclaveAuthority
  import opened EnclaveRegistry

  class Ledger {
    var configs: map<Id, Config>
    var caps: map<Id, Cap>
    var enclaves: map<Id, Enclave>
    var published: set<nat>
    var latest: nat
    var nextId: Id
    ghost var origins: map<Id, Origin>

    ghost function View(): State
      reads this
    {
      State(configs, caps, enclaves, published, latest, nextId, origins)
    }

    /** What `EnclaveRegistry` proves of every run holds between any two transactions. */
    ghost predicate Valid()
      reads this
    {
      Inv(View())
    }

    /** Publishing the module runs `init`. */
    constructor ()
      ensures Valid() && View() == Genesis()
    {
      configs, caps, enclaves, origins := map[], map[], map[], map[];
      published, latest, nextId := {0}, 0, 0;
      new;
      hide Inv, Step;
      NothingHolds();
      InitSteps();
      var cap := NewCap("ENCLAVE");
      var zero: seq<Byte> := seq(48, _ => 0);
      var _ := CreateEnclaveConfig(cap, "Nautilus Attestation Enclave", Pcrs(zero, zero, zero));
    }

    method NewObject() returns (id: Id)
      modifies this`nextId
      ensures id == old(nextId) && nextId == old(nextId) + 1
    {
      id := nextId;
      nextId := nextId + 1;
    }

    method NewCap(tag: string) returns (cap: Id)
      requires Valid()
      modifies this
      ensures Valid()
      ensures View() == Step(old(View()), Tx.NewCap(tag)).0 && cap == old(nextId)
      ensures caps == old(caps)[cap := Cap(tag)]
    {
      hide Inv;
      StepKeepsInvariant(View(), Tx.NewCap(tag));
      cap := NewObject();
      caps := caps[cap := Cap(tag)];
    }

    method CreateEnclaveConfig(cap: Id, name: string, pcrs: Pcrs) returns (outcome: Outcome)
      requires Valid()
      modifies this
      ensures Valid()
      ensures (View(), outcome) == Step(old(View()), CreateConfig(cap, name, pcrs))
      ensures outcome == Done <==> cap in old(caps)
      ensures configs == if outcome == Done then
                           old(configs)[old(nextId) := Config(old(caps)[cap].tag, name, pcrs, cap, 0, None)]
                         else old(configs)
    {
      hide Inv;
      StepKeepsInvariant(View(), CreateConfig(cap, name, pcrs));
      if cap !in caps {
        return NotExecuted;
      }
      var id := NewObject();
      configs := configs[id := Config(caps[cap].tag, name, pcrs, cap, 0, None)];
      outcome := Done;
    }

    predicate TypesFit(c: Id, cap: Id)
      reads this
    {
      c in configs && cap in caps && configs[c].tag == caps[cap].tag
    }

    method RegisterEnclave(c: Id, cap: Id, document: Document, sender: Address, via: nat) returns (outcome: Outcome)
      requires Valid()
      modifies this
      ensures Valid()
      ensures (View(), outcome) == Step(old(View()), Register(c, cap, document, sender, via))
    {
      hide Inv;
      StepKeepsInvariant(View(), Register(c, cap, document, sender, via));
      if !TypesFit(c, cap) || via !in published {
        return NotExecuted;
      }
      if cap != configs[c].capabilityId {
        return Aborted(EInvalidCap);
      }
      if |document.pcrs| < 3 {
        return Aborted(IndexOutOfBounds);
      }
      if Pcrs(document.pcrs[0], document.pcrs[1], document.pcrs[2]) != configs[c].pcrs {
        return Aborted(EInvalidPCRs);
      }
      if document.publicKey.None? {
        return Aborted(OptionIsNone);
      }
      var id := NewObject();
      enclaves := enclaves[id := Enclave(configs[c].tag, document.publicKey.value, configs[c].version, sender, via)];
      origins := origins[id := Origin(c, document)];
      configs := configs[c := configs[c].(current := Some(id))];
      outcome := Done;
    }

    method UpdatePcrs(c: Id, cap: Id, pcrs: Pcrs) returns (outcome: Outcome)
      requires Valid()
      modifies this
      ensures Valid()
      ensures (View(), outcome) == Step(old(View()), Tx.UpdatePcrs(c, cap, pcrs))
      ensures outcome == Done <==> Presents(old(View()), c, cap)
      ensures configs == if outcome == Done then old(configs)[c := old(configs)[c].(pcrs := pcrs, current := None)] else old(configs)
    {
      hide Inv;
      StepKeepsInvariant(View(), Tx.UpdatePcrs(c, cap, pcrs));
      if !TypesFit(c, cap) {
        return NotExecuted;
      }
      if cap != configs[c].capabilityId {
        return Aborted(EInvalidCap);
      }
      configs := configs[c := configs[c].(pcrs := pcrs, current := None)];
      outcome := Done;
    }

    method UpdateName(c: Id, cap: Id, name: string) returns (outcome: Outcome)
      requires Valid()
      modifies this
      ensures Valid()
      ensures (View(), outcome) == Step(old(View()), Tx.UpdateName(c, cap, name))
      ensures outcome == Done <==> Presents(old(View()), c, cap)
      ensures configs == if outcome == Done then old(configs)[c := old(configs)[c].(name := name)] else old(configs)
    {
      hide Inv;
      StepKeepsInvariant(View(), Tx.UpdateName(c, cap, name));
      if !TypesFit(c, cap) {
        return NotExecuted;
      }
      if cap != configs[c].capabilityId {
        return Aborted(EInvalidCap);
      }
      configs := configs[c := configs[c].(name := name)];
      outcome := Done;
    }

    method Migrate(c: Id, cap: Id, via: nat) returns (outcome: Outcome)
      requires Valid()
      modifies this
      ensures Valid()
      ensures (View(), outcome) == Step(old(View()), Tx.Migrate(c, cap, via))
      ensures outcome == Done <==>
                Presents(old(View()), c, cap) && via in old(published) && old(configs)[c].version < via
      ensures configs == if outcome == Done then old(configs)[c := old(configs)[c].(version := via)] else old(configs)
    {
      hide Inv;
      StepKeepsInvariant(View(), Tx.Migrate(c, cap, via));
      if !TypesFit(c, cap) || via !in published {
        return NotExecuted;
      }
      if cap != configs[c].capabilityId {
        return Aborted(EInvalidCap);
      }
      if !(configs[c].version < via) {
        return Aborted(EInvalidConfigVersion);
      }
      configs := configs[c := configs[c].(version := via)];
      outcome := Done;
    }

    method DestroyOldEnclave(e: Id, c: Id, cap: Id) returns (outcome: Outcome)
      requires Valid()
      modifies this
      ensures Valid()
      ensures (View(), outcome) == Step(old(View()), DestroyOld(e, c, cap))
      ensures outcome == Done <==> e in old(enclaves) && RemovesAsOld(old(View()), e, c, cap)
      ensures enclaves == if outcome == Done then old(enclaves) - {e} else old(enclaves)
    {
      hide Inv;
      StepKeepsInvariant(View(), DestroyOld(e, c, cap));
      if !TypesFit(c, cap) || e !in enclaves || enclaves[e].tag != configs[c].tag {
        return NotExecuted;
      }
      if cap != configs[c].capabilityId {
        return Aborted(EInvalidCap);
      }
      if configs[c].current.Some? {
        if e == configs[c].current.value {
          return Aborted(ECannotDestroyCurrentEnclave);
        }
      }
      if !(enclaves[e].configVersion < configs[c].version) {
        return Aborted(EInvalidConfigVersion);
      }
      enclaves := enclaves - {e};
      outcome := Done;
    }

    /** The Move function is called `deploy_old_enclave_by_owner`. */
    method DestroyEnclaveByOwner(e: Id, sender: Address) returns (outcome: Outcome)
      requires Valid()
      modifies this
      ensures Valid()
      ensures (View(), outcome) == Step(old(View()), DestroyByOwner(e, sender))
      ensures outcome == Done <==> e in old(enclaves) && old(enclaves)[e].owner == sender
      ensures enclaves == if outcome == Done then old(enclaves) - {e} else old(enclaves)
    {
      hide Inv;
      StepKeepsInvariant(View(), DestroyByOwner(e, sender));
      if e !in enclaves {
        return NotExecuted;
      }
      if enclaves[e].owner != sender {
        return Aborted(EInvalidOwner);
      }
      enclaves := enclaves - {e};
      outcome := Done;
    }

    /** `is_current_enclave`: a positive answer vouches for how the enclave was registered. */
    method IsCurrentEnclave(c: Id, e: Id) returns (current: bool)
      requires Valid() && c in configs && e in enclaves
      ensures current == EnclaveRegistry.IsCurrentEnclave(View(), c, e)
      ensures current <==> configs[c].current == Some(e)
      ensures current ==>
                && e in origins && origins[e].config == c
                && ToPcrs(origins[e].document) == Some(configs[c].pcrs)
                && origins[e].document.publicKey == Some(enclaves[e].pk)
    {
      current := configs[c].current.Some? && configs[c].current.value == e;
    }
  }

  /** Before anything is published. */
  const NOTHING: State := State(map[], map[], map[], {0}, 0, 0, map[])

  lemma NothingHolds()
    ensures Inv(NOTHING)
  {
  }

  lemma InitSteps()
    ensures var zero: seq<Byte> := seq(48, _ => 0);
            var s := Step(NOTHING, Tx.NewCap("ENCLAVE")).0;
            Step(s, CreateConfig(0, "Nautilus Attestation Enclave", Pcrs(zero, zero, zero))).0 == Genesis()
  {
  }
}
