/** The trade commands: the text path (split the rows, parse the Showdown
    set, stop on any invalid line, generate the entity, apply the trainer
    overrides, check it), the attachment path, the two overloads that draw a
    random link code, and the common admission gate that makes the single
    call into the trade queue. Replies are values of `Outcome`; an enqueue
    call is the `Enqueued` outcome, so at most one happens per request. */
module Trade {
  import opened Text
  import opened Pokemon
  import opened Splitter

  // ---------------------------------------------------------------------
  // Outcomes
  // ---------------------------------------------------------------------

  /** The plain replies the commands send. */
  datatype Reply =
    | NoAttachment                      // "No attachment provided!"
    | NoPk8Attachment                   // "No PK8 attachment provided!"
    | UnableToParse(lines: seq<string>) // "Unable to parse Showdown Set:" and the lines
    | BlockedFromTrading                // "... is blocked from trading!"
    | NotLegal                          // "PK8 attachment is not legal, and cannot be traded!"

  datatype PokeRoutineType = LinkTrade
  datatype PokeTradeType = Specific

  /** The arguments of the one call into the trade queue. */
  datatype TradeRequest = TradeRequest(
    code: int,
    trainerName: string,
    sudo: bool,
    entity: PkmData,
    routine: PokeRoutineType,
    tradeType: PokeTradeType)

  /** How a request ends: a reply, the best attempt sent back for a text
      request that could not be made valid, one enqueue call, or an
      exception escaping the command. */
  datatype Outcome =
    | Replied(reply: Reply)
    | Advisory(attempt: PkmData, speciesName: string)
    | Enqueued(request: TradeRequest)
    | Faulted

  // ---------------------------------------------------------------------
  // The admission gate (AddTradeToQueueAsync)
  // ---------------------------------------------------------------------

  /** Legality as the gate sees it: an illegal entity passes only while
      legality verification is switched off. */
  predicate PassesLegality(env: Engine, verifyLegality: bool, e: PkmData) {
    env.legal(e) || !verifyLegality
  }

  /** Tradability first, then legality, then exactly one enqueue call with
      the given code, name and sudo flag as a Specific link trade. */
  function AddTradeToQueue(env: Engine, verifyLegality: bool, code: int, trainerName: string,
                           pk8: PkmData, sudo: bool): (o: Outcome)
    ensures o.Enqueued? <==> env.canBeTraded(pk8) && PassesLegality(env, verifyLegality, pk8)
    ensures o.Enqueued? ==> o.request == TradeRequest(code, trainerName, sudo, pk8, LinkTrade, Specific)
    ensures !o.Enqueued? ==> o == Replied(if env.canBeTraded(pk8) then NotLegal else BlockedFromTrading)
  {
    if !env.canBeTraded(pk8) then Replied(BlockedFromTrading)
    else if !env.legal(pk8) && verifyLegality then Replied(NotLegal)
    else Enqueued(TradeRequest(code, trainerName, sudo, pk8, LinkTrade, Specific))
  }

  /** A blocked entity is refused before legality is consulted: the result
      is the same whatever the legality analysis would say. */
  lemma TradabilityCheckedFirst(env: Engine, legal': PkmData -> bool, verifyLegality: bool,
                                code: int, trainerName: string, pk8: PkmData, sudo: bool)
    requires !env.canBeTraded(pk8)
    ensures AddTradeToQueue(env.(legal := legal'), verifyLegality, code, trainerName, pk8, sudo)
            == AddTradeToQueue(env, verifyLegality, code, trainerName, pk8, sudo)
            == Replied(BlockedFromTrading)
  {
  }

  /** With legality verification off, admission depends on tradability alone. */
  lemma LegalityOffAdmitsTradable(env: Engine, code: int, trainerName: string, pk8: PkmData, sudo: bool)
    ensures AddTradeToQueue(env, false, code, trainerName, pk8, sudo).Enqueued? <==> env.canBeTraded(pk8)
  {
  }

  // ---------------------------------------------------------------------
  // The attachment path
  // ---------------------------------------------------------------------

  /** The result of downloading an attachment: whether it succeeded and the
      entity it decoded to, if any. */
  datatype Download = Download(success: bool, data: Option<PkmData>)

  /** The attachment command: no attachment, a failed download or anything
      but a PK8 is refused; otherwise the admission gate decides. */
  function TradeAttach(env: Engine, verifyLegality: bool, code: int, userName: string, sudo: bool,
                       attachment: Option<Download>): Outcome
  {
    match attachment
    case None => Replied(NoAttachment)
    case Some(att) =>
      if !att.success || att.data.None? || att.data.value.format != PK8 then Replied(NoPk8Attachment)
      else AddTradeToQueue(env, verifyLegality, code, userName, att.data.value, sudo)
  }

  /** The attachment command without a code: the code is drawn from the queue. */
  function TradeAttachRandomCode(env: Engine, verifyLegality: bool, randomCode: int, userName: string,
                                 sudo: bool, attachment: Option<Download>): Outcome
  {
    TradeAttach(env, verifyLegality, randomCode, userName, sudo, attachment)
  }

  /** An attachment is enqueued exactly when it downloaded as a PK8 that is
      tradable and passes legality; the request carries that entity as is. */
  lemma AttachmentAdmission(env: Engine, verifyLegality: bool, code: int, userName: string, sudo: bool,
                            attachment: Option<Download>)
    ensures TradeAttach(env, verifyLegality, code, userName, sudo, attachment).Enqueued? <==>
            && attachment.Some? && attachment.value.success && attachment.value.data.Some?
            && attachment.value.data.value.format == PK8
            && env.canBeTraded(attachment.value.data.value)
            && PassesLegality(env, verifyLegality, attachment.value.data.value)
    ensures TradeAttach(env, verifyLegality, code, userName, sudo, attachment).Enqueued? ==>
            TradeAttach(env, verifyLegality, code, userName, sudo, attachment).request
            == TradeRequest(code, userName, sudo, attachment.value.data.value, LinkTrade, Specific)
  {
  }

  /** An attachment that is not a PK8 is refused without consulting the
      block-list or the legality analysis. */
  lemma AttachmentFormatCheckedFirst(env: Engine, legal': PkmData -> bool, canBeTraded': PkmData -> bool,
                                     verifyLegality: bool, code: int, userName: string, sudo: bool,
                                     att: Download)
    requires att.data.Some? && att.data.value.format != PK8
    ensures TradeAttach(env.(legal := legal', canBeTraded := canBeTraded'), verifyLegality, code, userName,
                        sudo, Some(att))
            == TradeAttach(env, verifyLegality, code, userName, sudo, Some(att))
            == Replied(NoPk8Attachment)
  {
  }

  // ---------------------------------------------------------------------
  // Trainer overrides on the generated entity
  // ---------------------------------------------------------------------

  /** The unchecked C# conversion `(int)` of an unsigned 32-bit value:
      values from 2^31 up wrap to negative numbers. */
  function ToInt32(v: UInt): (r: int)
    ensures -0x8000_0000 <= r < 0x8000_0000
    ensures (v - r) % 0x1_0000_0000 == 0
  {
    if v < 0x8000_0000 then v else v - 0x1_0000_0000
  }

  /** Distinct trainer ids stay distinct after the conversion. */
  lemma ToInt32Injective(a: UInt, b: UInt)
    requires ToInt32(a) == ToInt32(b)
    ensures a == b
  {
  }

  /** The override step as a function of the generated entity: secret id,
      then trainer id, then trainer name, each written only when present. */
  function WithOverrides(d: PkmData, ov: Overrides): PkmData
  {
    var afterSid := if ov.secretId.Some? then d.(sid := ov.secretId.value) else d;
    var afterTid := if ov.trainerId.Some? then afterSid.(tid := ToInt32(ov.trainerId.value)) else afterSid;
    if ov.ot.Some? then afterTid.(otName := ov.ot.value) else afterTid
  }

  /** The override step in place: the entity's new state is WithOverrides of
      its old state. */
  method ApplyOverrides(pkm: Pkm, secretId: Option<UShort>, trainerId: Option<UInt>, ot: Option<string>)
    modifies pkm
    ensures pkm.Data() == WithOverrides(old(pkm.Data()), Overrides(secretId, trainerId, ot))
  {
    if secretId.Some? { pkm.sid := secretId.value; }
    if trainerId.Some? { pkm.tid := ToInt32(trainerId.value); }
    if ot.Some? { pkm.otName := ot.value; }
  }

  /** Overrides touch only the trainer identity: runtime type, party stats
      and every other stored value stay as generated; an absent override
      leaves its property as generated, a present one replaces it. */
  lemma OverridesTouchOnlyIdentity(d: PkmData, ov: Overrides)
    ensures WithOverrides(d, ov).format == d.format
    ensures WithOverrides(d, ov).partyStats == d.partyStats
    ensures WithOverrides(d, ov).body == d.body
    ensures ov.secretId.None? ==> WithOverrides(d, ov).sid == d.sid
    ensures ov.trainerId.None? ==> WithOverrides(d, ov).tid == d.tid
    ensures ov.ot.None? ==> WithOverrides(d, ov).otName == d.otName
    ensures ov == NO_OVERRIDES ==> WithOverrides(d, ov) == d
    ensures ov.secretId.Some? ==> WithOverrides(d, ov).sid == ov.secretId.value
    ensures ov.trainerId.Some? ==> WithOverrides(d, ov).tid == ToInt32(ov.trainerId.value)
    ensures ov.ot.Some? ==> WithOverrides(d, ov).otName == ov.ot.value
  {
  }

  /** Two generated entities that differ at most in trainer identity are
      identical after overrides, except in the properties left absent. */
  lemma OverridesAgreeOnOverriddenFields(d1: PkmData, d2: PkmData, ov: Overrides)
    requires d1.format == d2.format && d1.partyStats == d2.partyStats && d1.body == d2.body
    requires ov.secretId.Some? || d1.sid == d2.sid
    requires ov.trainerId.Some? || d1.tid == d2.tid
    requires ov.ot.Some? || d1.otName == d2.otName
    ensures WithOverrides(d1, ov) == WithOverrides(d2, ov)
  {
  }

  // ---------------------------------------------------------------------
  // The text path
  // ---------------------------------------------------------------------

  /** The request rows: the code block stripped, then split on '\n'. */
  function RowsOf(env: Engine, content: string): seq<string>
  {
    SplitOn(env.stripCodeBlock(content), '\n')
  }

  /** The Showdown set parsed from the description rows, joined back with '\n'. */
  function SetOf(env: Engine, split: RowSplit): ShowdownSet
  {
    env.parseShowdown(Join(split.showdownRows, '\n'))
  }

  /** All invalid lines: the parser's, then the splitter's. */
  function Diagnostics(parsedSet: ShowdownSet, split: RowSplit): (lines: seq<string>)
    ensures lines == [] <==> parsedSet.invalidLines == [] && split.invalidExtraRows == []
    ensures |lines| == |parsedSet.invalidLines| + |split.invalidExtraRows|
    ensures lines[..|parsedSet.invalidLines|] == parsedSet.invalidLines
    ensures lines[|parsedSet.invalidLines|..] == split.invalidExtraRows
  {
    parsedSet.invalidLines + split.invalidExtraRows
  }

  /** The entity the generator produces for the set, with the overrides applied. */
  function Generated(env: Engine, split: RowSplit): PkmData
  {
    WithOverrides(env.getLegal(env.getTemplate(SetOf(env, split))), split.overrides)
  }

  /** The entity after ResetPartyStats. */
  function PartyReset(env: Engine, d: PkmData): PkmData
  {
    d.(partyStats := env.recomputedPartyStats(d))
  }

  /** The text command as a function of its inputs. */
  function TextTrade(env: Engine, verifyLegality: bool, code: int, userName: string, sudo: bool,
                     content: string): Outcome
  {
    var split := Partition(RowsOf(env, content));
    var parsedSet := SetOf(env, split);
    var template := env.getTemplate(parsedSet);
    var invalidLines := Diagnostics(parsedSet, split);
    if invalidLines != [] then Replied(UnableToParse(invalidLines))
    else
      var pkm := Generated(env, split);
      if !(0 <= template.species < |env.speciesNames|) then Faulted
      else if pkm.format != PK8 || (!env.legal(pkm) && verifyLegality) then
        Advisory(pkm, env.speciesNames[template.species])
      else AddTradeToQueue(env, verifyLegality, code, userName, PartyReset(env, pkm), sudo)
  }

  /** The text command as it runs: the splitting loop, the diagnostics gate,
      generation, the in-place overrides, the validity check, the in-place
      party-stat reset, and the admission gate. */
  method TradeText(env: Engine, verifyLegality: bool, code: int, userName: string, sudo: bool,
                   content: string) returns (o: Outcome)
    ensures o == TextTrade(env, verifyLegality, code, userName, sudo, content)
  {
    var text := env.stripCodeBlock(content);
    var showdownRows, invalidExtraRows, secretId, trainerId, ot := SplitRows(SplitOn(text, '\n'));
    var parsedSet := env.parseShowdown(Join(showdownRows, '\n'));
    var template := env.getTemplate(parsedSet);
    var invalidLines := parsedSet.invalidLines + invalidExtraRows;
    if |invalidLines| != 0 {
      return Replied(UnableToParse(invalidLines));
    }
    var pkm := new Pkm(env.getLegal(template));
    ApplyOverrides(pkm, secretId, trainerId, ot);
    if !(0 <= template.species < |env.speciesNames|) {
      return Faulted;
    }
    var spec := env.speciesNames[template.species];
    var invalid := pkm.format != PK8 || (!env.legal(pkm.Data()) && verifyLegality);
    if invalid {
      return Advisory(pkm.Data(), spec);
    }
    pkm.ResetPartyStats(env.recomputedPartyStats);
    o := AddTradeToQueue(env, verifyLegality, code, userName, pkm.Data(), sudo);
  }

  /** The text command without a code: the code is drawn from the queue. */
  function TextTradeRandomCode(env: Engine, verifyLegality: bool, randomCode: int, userName: string,
                               sudo: bool, content: string): Outcome
  {
    TextTrade(env, verifyLegality, randomCode, userName, sudo, content)
  }

  // ---------------------------------------------------------------------
  // Properties of the text path
  // ---------------------------------------------------------------------

  /** A text request is enqueued only when there are no invalid lines, the
      generated entity (overrides applied) is a PK8 that passes legality,
      and the entity after the party-stat reset is tradable and passes
      legality again; the request then carries that reset entity. */
  lemma TextAdmission(env: Engine, verifyLegality: bool, code: int, userName: string, sudo: bool,
                      content: string)
    ensures var split := Partition(RowsOf(env, content));
            var pkm := Generated(env, split);
            var o := TextTrade(env, verifyLegality, code, userName, sudo, content);
            o.Enqueued? <==>
              && Diagnostics(SetOf(env, split), split) == []
              && 0 <= env.getTemplate(SetOf(env, split)).species < |env.speciesNames|
              && pkm.format == PK8
              && PassesLegality(env, verifyLegality, pkm)
              && env.canBeTraded(PartyReset(env, pkm))
              && PassesLegality(env, verifyLegality, PartyReset(env, pkm))
    ensures var split := Partition(RowsOf(env, content));
            var o := TextTrade(env, verifyLegality, code, userName, sudo, content);
            o.Enqueued? ==>
              o.request == TradeRequest(code, userName, sudo, PartyReset(env, Generated(env, split)),
                                        LinkTrade, Specific)
  {
  }

  /** Any invalid line stops the request with a reply listing them all, and
      nothing after the gate runs: the outcome does not depend on the
      generator, the legality analysis, the block-list or the stat reset. */
  lemma DiagnosticsStopRequest(env: Engine, getLegal': Template -> PkmData, legal': PkmData -> bool,
                               canBeTraded': PkmData -> bool, recompute': PkmData -> seq<int>,
                               verifyLegality: bool, code: int, userName: string, sudo: bool,
                               content: string)
    requires var split := Partition(RowsOf(env, content));
             Diagnostics(SetOf(env, split), split) != []
    ensures var split := Partition(RowsOf(env, content));
            var env' := env.(getLegal := getLegal', legal := legal', canBeTraded := canBeTraded',
                             recomputedPartyStats := recompute');
            TextTrade(env', verifyLegality, code, userName, sudo, content)
            == TextTrade(env, verifyLegality, code, userName, sudo, content)
            == Replied(UnableToParse(Diagnostics(SetOf(env, split), split)))
  {
  }

  /** A generated entity that is not a PK8, or is illegal while legality
      is verified, comes back as the best attempt and is never enqueued. */
  lemma InvalidGenerationIsAdvisory(env: Engine, verifyLegality: bool, code: int, userName: string,
                                    sudo: bool, content: string)
    requires var split := Partition(RowsOf(env, content));
             var pkm := Generated(env, split);
             && Diagnostics(SetOf(env, split), split) == []
             && 0 <= env.getTemplate(SetOf(env, split)).species < |env.speciesNames|
             && (pkm.format != PK8 || !PassesLegality(env, verifyLegality, pkm))
    ensures var split := Partition(RowsOf(env, content));
            TextTrade(env, verifyLegality, code, userName, sudo, content)
            == Advisory(Generated(env, split), env.speciesNames[env.getTemplate(SetOf(env, split)).species])
  {
  }

  /** The random-code overloads pass the drawn code, unchanged, to the queue. */
  lemma RandomCodeReachesQueue(env: Engine, verifyLegality: bool, randomCode: int, userName: string,
                               sudo: bool, content: string, attachment: Option<Download>)
    ensures var o := TextTradeRandomCode(env, verifyLegality, randomCode, userName, sudo, content);
            o.Enqueued? ==> o.request.code == randomCode
    ensures var o := TradeAttachRandomCode(env, verifyLegality, randomCode, userName, sudo, attachment);
            o.Enqueued? ==> o.request.code == randomCode
  {
  }

  /** The description rows reach the parser intact: when the splitter kept
      at least one, splitting the joined text on '\n' gives back exactly
      those rows; when it kept none, the parser gets the empty text. */
  lemma ParserSeesDescriptionRows(env: Engine, content: string)
    ensures Partition(RowsOf(env, content)).showdownRows != [] ==>
              SplitOn(Join(Partition(RowsOf(env, content)).showdownRows, '\n'), '\n')
              == Partition(RowsOf(env, content)).showdownRows
    ensures Partition(RowsOf(env, content)).showdownRows == [] ==>
              Join(Partition(RowsOf(env, content)).showdownRows, '\n') == ""
  {
    var rows := RowsOf(env, content);
    if Partition(rows).showdownRows == [] {
      return;
    }
    SplitOnPiecesLackSeparator(env.stripCodeBlock(content), '\n');
    SplitAccountsForEveryRow(rows);
    var kept := Partition(rows).showdownRows;
    forall p | p in kept ensures '\n' !in p {
      assert p in multiset(kept);
      assert p in multiset(rows);
    }
    SplitOnJoin(kept, '\n');
  }
}
