/** What a signature that the program accepts is for: one action on one proposal. */
module SignedActs {
  import opened Acceptance
  import opened Bytes
  import opened Definition
  import opened Governance
  import opened NameMeaning
  import MessageMeaning
  import MessageText
  import TimestampText

  predicate IsSigned(ins: Instruction)
  {
    ins.Propose? || ins.Approve? || ins.Cancel?
  }

  /** The intent and the proposal, if it is there already, that a signed instruction is about. */
  predicate Present(s: State, ins: Instruction)
    requires IsSigned(ins)
  {
    if ins.Propose? then ins.intent in s.intents else ins.key in s.proposals && ins.key.intent in s.intents
  }

  /** What the signed text names: expiry, action, wallet and the place the proposal has or is about to get. */
  function NamedInText(s: State, ins: Instruction): (ctx: MessageText.Context)
    requires IsSigned(ins) && Present(s, ins)
  {
    match ins
    case Propose(_, _, expiry, _, _, _) =>
      MessageText.Context(expiry := expiry, action := MessageText.Propose, walletName := s.name,
                          proposalIndex := s.proposalIndex)
    case Approve(key, expiry, _, _) =>
      MessageText.Context(expiry := expiry, action := MessageText.Approve, walletName := s.name,
                          proposalIndex := s.proposals[key].proposalIndex)
    case Cancel(key, expiry, _, _) =>
      MessageText.Context(expiry := expiry, action := MessageText.Cancel, walletName := s.name,
                          proposalIndex := s.proposals[key].proposalIndex)
  }

  function DefinitionOf(s: State, ins: Instruction): (def: Definition)
    requires IsSigned(ins) && Present(s, ins)
  {
    if ins.Propose? then s.intents[ins.intent].def else s.intents[ins.key.intent].def
  }

  function ParamsOf(s: State, ins: Instruction): (params: Bytes)
    requires IsSigned(ins) && Present(s, ins)
  {
    if ins.Propose? then ins.params else s.proposals[ins.key].params
  }

  /** The text that was signed. */
  function TextToSign(env: Env, s: State, ins: Instruction): (r: Result<Bytes>)
    requires IsSigned(ins) && Present(s, ins)
  {
    MessageText.Message(env, NamedInText(s, ins), DefinitionOf(s, ins), ParamsOf(s, ins))
  }

  /** A successful proposal, approval or cancellation carries a listed signer's signature on this text, unexpired. */
  lemma AcceptedIsSigned(env: Env, s: State, ins: Instruction)
    requires IsSigned(ins) && Apply(env, s, ins).Ok?
    ensures Present(s, ins) && s.clock < ins.expiry
    ensures var (text, def) := (TextToSign(env, s, ins), DefinitionOf(s, ins));
            && text.Ok?
            && match ins
               case Propose(_, _, _, proposer, signature, _) =>
                 proposer in def.proposers && env.verifies(proposer, signature, text.value)
               case Approve(_, _, slot, signature) =>
                 slot < |def.approvers| && env.verifies(def.approvers[slot], signature, text.value)
               case Cancel(_, _, slot, signature) =>
                 slot < |def.approvers| && env.verifies(def.approvers[slot], signature, text.value)
  {
    hide MessageText.Message, Apply;
    match ins {
      case Propose(_, _, _, _, _, _) => ProposeIff(env, s, ins);
      case Approve(_, _, _, _) => ApproveIff(env, s, ins);
      case Cancel(_, _, _, _) => CancelIff(env, s, ins);
    }
  }

  /**
   Two instructions whose signed texts are equal do the same action under the same index, with the same written expiry;
   where the wallets' names are told apart, also for the same wallet name and the same content. So a signature for one
   action is never accepted for another.
   */
  lemma SameTextSameAct(env: Env, s: State, first: Instruction, t: State, second: Instruction)
    requires IsSigned(first) && Apply(env, s, first).Ok? && IsSigned(second) && Apply(env, t, second).Ok?
    requires Present(s, first) && Present(t, second) && TextToSign(env, s, first) == TextToSign(env, t, second)
    ensures (first.Propose? <==> second.Propose?) && (first.Approve? <==> second.Approve?)
    ensures NamedInText(s, first).proposalIndex == NamedInText(t, second).proposalIndex
    ensures TimestampText.Text(first.expiry) == TimestampText.Text(second.expiry)
    ensures ToldApart(s.name, t.name) ==>
              && s.name == t.name
              && MessageText.Content(env, DefinitionOf(s, first), ParamsOf(s, first))
                 == MessageText.Content(env, DefinitionOf(t, second), ParamsOf(t, second))
  {
    hide MessageText.Message, MessageText.Content, Apply, TimestampText.Text, ToldApart, DefinitionOf, ParamsOf;
    AcceptedIsSigned(env, s, first);
    AcceptedIsSigned(env, t, second);
    var (c1, c2) := (NamedInText(s, first), NamedInText(t, second));
    MessageMeaning.MessageDetermines(env, c1, c2, DefinitionOf(s, first), DefinitionOf(t, second), ParamsOf(s, first),
                                     ParamsOf(t, second));
    if ToldApart(s.name, t.name) {
      MessageDeterminesAll(env, c1, c2, DefinitionOf(s, first), DefinitionOf(t, second), ParamsOf(s, first),
                           ParamsOf(t, second));
    }
  }
}
