/** Two wallets on one ledger: what one does is to the other exactly what `Elsewhere` and `Claim` allow. */
module Neighbours {
  import opened Bytes
  import opened Counts
  import opened Definition
  import opened Governance
  import opened Invariant
  import Interpreter
  import Params

  /** The state after a sequence of instructions. */
  function After(env: Env, s: State, steps: seq<Instruction>): (t: State)
  {
    if steps == [] then s else Next(env, After(env, s, steps[..|steps| - 1]), steps[|steps| - 1])
  }

  lemma AfterOne(env: Env, s: State, steps: seq<Instruction>, ins: Instruction)
    ensures After(env, s, steps + [ins]) == Next(env, After(env, s, steps), ins)
  {
    assert (steps + [ins])[..|steps|] == steps;
    hide Next;
  }

  lemma {:induction false} AfterBoth(env: Env, s: State, first: seq<Instruction>, second: seq<Instruction>)
    ensures After(env, s, first + second) == After(env, After(env, s, first), second)
  {
    hide Next;
    if second == [] {
      assert first + second == first;
    } else {
      var (most, last) := (second[..|second| - 1], second[|second| - 1]);
      AfterBoth(env, s, first, most);
      assert first + second == (first + most) + [last];
      AfterOne(env, s, first + most, last);
    }
  }

  lemma {:induction false} AfterKeeps(env: Env, s: State, steps: seq<Instruction>)
    requires Inv(env, s)
    ensures Inv(env, After(env, s, steps))
  {
    hide Inv, Next;
    if steps != [] {
      AfterKeeps(env, s, steps[..|steps| - 1]);
      StepKeeps(env, After(env, s, steps[..|steps| - 1]), steps[|steps| - 1]);
    }
  }

  /** Different wallets have different addresses and seeds. */
  predicate Apart(env: Env, other: Env)
  {
    && env.walletAddress != other.walletAddress
    && forall i: byte, j: byte :: env.intentAddress(i) != other.intentAddress(j)
  }

  /** Two wallets see the same intent accounts and time, and keep out of each other's proposal addresses. */
  predicate Shared(s: State, u: State)
  {
    && s.intents == u.intents && s.clock == u.clock
    && u.proposals.Keys <= s.taken && s.proposals.Keys <= u.taken
    && s.taken !! s.proposals.Keys && u.taken !! u.proposals.Keys
  }

  /** An instruction of the program, as opposed to what happens around the wallet. */
  predicate OfProgram(ins: Instruction)
  {
    !ins.Tick? && !ins.Elsewhere? && !ins.Claim?
  }

  predicate Around(steps: seq<Instruction>)
  {
    forall i :: 0 <= i < |steps| ==> steps[i].Elsewhere? || steps[i].Claim?
  }

  /** A change of the count of an intent that names the one wallet is allowed to happen around the other. */
  lemma CountElsewhere(env: Env, other: Env, u: State, a: Address, body: Intent)
    requires Apart(env, other) && a in u.intents && Names(env, u.intents[a])
    requires body == u.intents[a].(activeProposalCount := body.activeProposalCount)
    ensures MayChange(other, u, a, body)
  {
    hide OwnSeed;
  }

  /** A write to an idle account at the one wallet's seeds is allowed to happen around the other. */
  lemma TargetElsewhere(env: Env, other: Env, u: State, a: Address, body: Intent)
    requires Apart(env, other) && OwnSeed(env, a) && (a in u.intents ==> u.intents[a].activeProposalCount == 0)
    ensures MayChange(other, u, a, body)
  {
    assert !OwnSeed(other, a);
  }

  /** A branch of `execute` writes at most one account: an idle one at the wallet's own seeds. */
  lemma BranchWrites(env: Env, s: State, def: Definition, params: Bytes, declared: Interpreter.Declared,
                     remaining: seq<Interpreter.AccountView>) returns (a: Address)
    requires !def.intentType.Custom? && ExecuteBranch(env, s, def, params, declared, remaining).Ok?
    ensures var t := ExecuteBranch(env, s, def, params, declared, remaining).value.0;
            && OwnSeed(env, a) && (a in s.intents ==> s.intents[a].activeProposalCount == 0)
            && a in t.intents && t.intents == s.intents[a := t.intents[a]]
            && (if def.intentType == RemoveIntent then
                  && a in s.intents && t.intents[a] == s.intents[a].(approved := 0)
                  && InstalledBy(env, s, def.intentType, params) == None
                else InstalledBy(env, s, def.intentType, params) == Some((a, t.intents[a])))
  {
    hide Interpreter.Executed;
    match def.intentType {
      case AddIntent => a := env.intentAddress(s.intentIndex + 1);
      case RemoveIntent => a := env.intentAddress(params[0]);
      case UpdateIntent => a := env.intentAddress(params[0]);
    }
  }

  // ---- One instruction seen from the other wallet ----

  /** The intent accounts an instruction writes, in order. */
  lemma WritesIntents(env: Env, other: Env, s: State, ins: Instruction, t: State) returns (writes: seq<Instruction>)
    requires Apart(env, other) && OfProgram(ins) && Apply(env, s, ins) == Ok(t)
    ensures Around(writes)
    ensures forall u: State :: u.intents == s.intents ==> After(other, u, writes) == u.(intents := t.intents)
  {
    hide OwnSeed, MayChange, ApplyExecute, Signed, Params.Validated, AfterApprove, AfterCancel, CancelCheck,
      ApproveCheck, ProposeCheck, LoadProposal, Apart;
    match ins {
      case Propose(a, _, _, _, _, _) =>
        ProposeWrites(env, s, ins, t);
        writes := [Elsewhere(a, t.intents[a])];
        forall u: State | u.intents == s.intents
          ensures After(other, u, writes) == u.(intents := t.intents)
        {
          CountElsewhere(env, other, u, a, t.intents[a]);
          OneWrite(other, u, a, t.intents[a]);
        }
      case Cancel(key, _, _, _) =>
        CancelWrites(env, s, ins, t);
        writes := [Elsewhere(key.intent, t.intents[key.intent])];
        forall u: State | u.intents == s.intents
          ensures After(other, u, writes) == u.(intents := t.intents)
        {
          CountElsewhere(env, other, u, key.intent, t.intents[key.intent]);
          OneWrite(other, u, key.intent, t.intents[key.intent]);
        }
      case Execute(key, declared, remaining) =>
        writes := ExecuteWrites(env, other, s, ins, t);
      case _ =>
        writes := [];
    }
  }

  lemma OneWrite(other: Env, u: State, a: Address, body: Intent)
    requires MayChange(other, u, a, body)
    ensures After(other, u, [Elsewhere(a, body)]) == u.(intents := u.intents[a := body])
  {
    hide MayChange;
    assert [Elsewhere(a, body)][..0] == [];
    assert After(other, u, [Elsewhere(a, body)]) == Next(other, u, Elsewhere(a, body));
  }

  lemma ProposeWrites(env: Env, s: State, ins: Instruction, t: State)
    requires ins.Propose? && Apply(env, s, ins) == Ok(t)
    ensures var a := ins.intent;
            && a in s.intents && Names(env, s.intents[a]) && a in t.intents
            && t.intents == s.intents[a := t.intents[a]]
            && t.intents[a] == s.intents[a].(activeProposalCount := t.intents[a].activeProposalCount)
  {
    hide Signed, Params.Validated;
  }

  lemma CancelWrites(env: Env, s: State, ins: Instruction, t: State)
    requires ins.Cancel? && Apply(env, s, ins) == Ok(t)
    ensures var a := ins.key.intent;
            && a in s.intents && Names(env, s.intents[a]) && a in t.intents
            && t.intents == s.intents[a := t.intents[a]]
            && t.intents[a] == s.intents[a].(activeProposalCount := t.intents[a].activeProposalCount)
  {
    hide VoteCheck, AfterCancel;
  }

  /**
   An execution writes its target, if any, and the count of the intent it runs under; should these be one account, the
   two writes are one.
   */
  lemma ExecuteWrites(env: Env, other: Env, s: State, ins: Instruction, t: State) returns (writes: seq<Instruction>)
    requires Apart(env, other) && ins.Execute? && Apply(env, s, ins) == Ok(t)
    ensures Around(writes)
    ensures forall u: State :: u.intents == s.intents ==> After(other, u, writes) == u.(intents := t.intents)
  {
    hide OwnSeed, MayChange, ExecuteBranch, Close, Apart;
    var (key, a) := (ins.key, ins.key.intent);
    ExecuteParts(env, s, ins, t);
    var (def, params) := (s.intents[a].def, s.proposals[key].params);
    var mid := ExecuteBranch(env, s, def, params, ins.declared, ins.remaining).value.0;
    if def.intentType.Custom? {
      CustomWritesNothing(env, s, def, params, ins.declared, ins.remaining);
      writes := [Elsewhere(a, t.intents[a])];
      forall u: State | u.intents == s.intents
        ensures After(other, u, writes) == u.(intents := t.intents)
      {
        CountElsewhere(env, other, u, a, t.intents[a]);
        OneWrite(other, u, a, t.intents[a]);
      }
    } else {
      var b := BranchWrites(env, s, def, params, ins.declared, ins.remaining);
      if a == b {
        writes := [Elsewhere(b, t.intents[b])];
        forall u: State | u.intents == s.intents
          ensures After(other, u, writes) == u.(intents := t.intents)
        {
          TargetElsewhere(env, other, u, b, t.intents[b]);
          OneWrite(other, u, b, t.intents[b]);
        }
      } else {
        writes := [Elsewhere(b, mid.intents[b])] + [Elsewhere(a, t.intents[a])];
        forall u: State | u.intents == s.intents
          ensures After(other, u, writes) == u.(intents := t.intents)
        {
          TargetElsewhere(env, other, u, b, mid.intents[b]);
          var v := u.(intents := mid.intents);
          CountElsewhere(env, other, v, a, t.intents[a]);
          TwoWrites(other, u, b, mid.intents[b], a, t.intents[a]);
        }
      }
    }
  }

  lemma TwoWrites(other: Env, u: State, b: Address, first: Intent, a: Address, second: Intent)
    requires MayChange(other, u, b, first)
    requires MayChange(other, u.(intents := u.intents[b := first]), a, second)
    ensures After(other, u, [Elsewhere(b, first)] + [Elsewhere(a, second)])
            == u.(intents := u.intents[b := first][a := second])
  {
    hide MayChange, Next;
    OneWrite(other, u, b, first);
    var v := u.(intents := u.intents[b := first]);
    OneWrite(other, v, a, second);
    AfterOne(other, u, [Elsewhere(b, first)], Elsewhere(a, second));
    AfterOne(other, v, [], Elsewhere(a, second));
    assert [] + [Elsewhere(a, second)] == [Elsewhere(a, second)];
  }

  /** An execution is its branch, which touches intents only, and the closing of the proposal. */
  lemma ExecuteParts(env: Env, s: State, ins: Instruction, t: State)
    requires ins.Execute? && Apply(env, s, ins) == Ok(t)
    ensures ins.key in s.proposals && ins.key.intent in s.intents && Names(env, s.intents[ins.key.intent])
    ensures var branch := ExecuteBranch(env, s, s.intents[ins.key.intent].def, s.proposals[ins.key].params,
                                        ins.declared, ins.remaining);
            && branch.Ok?
            && var mid := branch.value.0;
            && mid == s.(intents := mid.intents, intentIndex := mid.intentIndex)
            && ins.key.intent in mid.intents
            && t == Close(mid, ins.key, branch.value.1)
            && t.intents == Release(mid.intents, ins.key.intent)
            && ins.key.intent in t.intents
            && t.proposals.Keys == s.proposals.Keys && t.taken == s.taken && t.clock == s.clock
  {
    hide Interpreter.Executed, TargetCheck;
  }

  lemma CustomWritesNothing(env: Env, s: State, def: Definition, params: Bytes, declared: Interpreter.Declared,
                            remaining: seq<Interpreter.AccountView>)
    requires def.intentType.Custom? && ExecuteBranch(env, s, def, params, declared, remaining).Ok?
    ensures ExecuteBranch(env, s, def, params, declared, remaining).value.0 == s
  {
    hide Interpreter.Executed;
  }

  /** A successful instruction keeps out of the proposal addresses that others occupy. */
  lemma KeepsOut(env: Env, s: State, ins: Instruction, t: State)
    requires OfProgram(ins) && Apply(env, s, ins) == Ok(t) && s.taken !! s.proposals.Keys
    ensures t.taken == s.taken && t.clock == s.clock && t.taken !! t.proposals.Keys
  {
    hide Signed, Params.Validated, AfterApprove, AfterCancel, VoteCheck, ApplyExecute;
    if ins.Execute? {
      ExecuteParts(env, s, ins, t);
    }
  }

  /**
   Whatever the one wallet does, the other sees a few steps of its surroundings: the intent accounts change as they
   did, the one wallet's proposal addresses are taken, and the two still share one ledger.
   */
  lemma SeenFromOutside(env: Env, other: Env, s: State, u: State, ins: Instruction, t: State)
    returns (steps: seq<Instruction>)
    requires Apart(env, other) && Shared(s, u) && OfProgram(ins) && Apply(env, s, ins) == Ok(t)
    ensures Around(steps) && Shared(t, After(other, u, steps))
    ensures After(other, u, steps) == u.(intents := t.intents, taken := After(other, u, steps).taken)
  {
    hide Apart, Apply, After;
    KeepsOut(env, s, ins, t);
    var writes := WritesIntents(env, other, s, ins, t);
    var v := u.(intents := t.intents);
    assert After(other, u, writes) == v;
    var keys := (u.taken - s.proposals.Keys) + t.proposals.Keys;
    StaysApart(env, s, u, ins, t);
    steps := writes + [Claim(keys)];
    AfterOne(other, u, writes, Claim(keys));
    ClaimStep(other, v, keys);
  }

  lemma ClaimStep(other: Env, v: State, keys: set<Key>)
    requires keys !! v.proposals.Keys
    ensures Next(other, v, Claim(keys)) == v.(taken := keys)
  {}

  lemma StaysApart(env: Env, s: State, u: State, ins: Instruction, t: State)
    requires Shared(s, u) && t.taken == s.taken && t.taken !! t.proposals.Keys
    ensures ((u.taken - s.proposals.Keys) + t.proposals.Keys) !! u.proposals.Keys
  {}

  // ---- Exact counts, for every wallet ----

  /** What an execution installs at `x`, if anything, claims no open proposals of `other`. */
  predicate InstallsFor(env: Env, other: Env, s: State, ins: Instruction, x: Address)
  {
    var w := Installed(env, s, ins);
    w.Some? && w.value.0 == x ==> BodyOk(other, w.value.1)
  }

  /**
   An execution of the one wallet, under an intent that counts its proposal, keeps the other's count at an address exact
   exactly when the body it installs there, if any, claims no open proposals of the other.
   */
  lemma ExecuteKeepsOtherIff(env: Env, other: Env, s: State, u: State, ins: Instruction, t: State, x: Address)
    requires Inv(other, u) && CountExact(other, u, x) && Apart(env, other) && Shared(s, u)
    requires ins.Execute? && Apply(env, s, ins) == Ok(t)
    requires ins.key.intent in s.intents && s.intents[ins.key.intent].activeProposalCount != 0
    ensures CountExact(other, u.(intents := t.intents), x) <==> InstallsFor(env, other, s, ins, x)
  {
    hide Inv, OwnSeed, ExecuteBranch, Close, CountExact, InstallsFor;
    var (key, a) := (ins.key, ins.key.intent);
    ExecuteParts(env, s, ins, t);
    var (def, params) := (s.intents[a].def, s.proposals[key].params);
    var mid := ExecuteBranch(env, s, def, params, ins.declared, ins.remaining).value.0;
    if def.intentType.Custom? {
      CustomWritesNothing(env, s, def, params, ins.declared, ins.remaining);
      InstalledNothing(env, other, s, ins, x);
    } else {
      var b := BranchWrites(env, s, def, params, ins.declared, ins.remaining);
      NoneUnder(other, u, b);
      WrittenCount(other, u, u.(intents := mid.intents), b, mid.intents[b], x);
      BranchInstalls(env, other, s, ins, mid, b, x);
    }
    NotItsCount(env, other, u.(intents := mid.intents), a, t.intents[a], x);
  }

  lemma InstalledNothing(env: Env, other: Env, s: State, ins: Instruction, x: Address)
    requires ins.Execute? && ins.key in s.proposals && ins.key.intent in s.intents
    requires s.intents[ins.key.intent].def.intentType.Custom?
    ensures InstallsFor(env, other, s, ins, x)
  {}

  lemma BranchInstalls(env: Env, other: Env, s: State, ins: Instruction, mid: State, b: Address, x: Address)
    requires ins.Execute? && ins.key in s.proposals && ins.key.intent in s.intents
    requires b in mid.intents && (b in s.intents ==> s.intents[b].activeProposalCount == 0)
    requires var w := InstalledBy(env, s, s.intents[ins.key.intent].def.intentType, s.proposals[ins.key].params);
             if w.Some? then w.value == (b, mid.intents[b])
             else b in s.intents && mid.intents[b] == s.intents[b].(approved := 0)
    ensures (x == b ==> BodyOk(other, mid.intents[b])) <==> InstallsFor(env, other, s, ins, x)
  {
    hide InstalledBy;
  }

  /** The count of an intent that names another wallet is no concern of this one. */
  lemma NotItsCount(env: Env, other: Env, v: State, a: Address, body: Intent, x: Address)
    requires Apart(env, other) && a in v.intents && Names(env, v.intents[a])
    requires body == v.intents[a].(activeProposalCount := body.activeProposalCount)
    ensures CountExact(other, v.(intents := v.intents[a := body]), x) <==> CountExact(other, v, x)
  {
    hide OpenKeys;
  }
}
