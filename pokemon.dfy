/** The entities the trade module handles and the collaborators it calls:
    the Showdown-set parser, the legal-entity generator, legality analysis,
    the trade block-list, party-stat recalculation and the species names.
    Their code is not part of this model, so each collaborator is a total
    function held in an `Engine` value and is never looked inside. */
module Pokemon {

  /** The runtime type of a generated entity; the bot trades only PK8. */
  datatype Format = PK8 | OtherFormat

  /** What the collaborators see of an entity: its runtime type, the three
      trainer-identity properties the trade module writes, the party stats
      that ResetPartyStats recomputes, and everything else as opaque data. */
  datatype PkmData = PkmData(
    format: Format,
    sid: int,
    tid: int,
    otName: string,
    partyStats: seq<int>,
    body: seq<int>)

  /** A parsed Showdown set: what the parser understood, and the lines it
      could not interpret (ShowdownSet.InvalidLines). */
  datatype ShowdownSet = ShowdownSet(species: int, attributes: seq<string>, invalidLines: seq<string>)

  /** The generator's template (AutoLegalityWrapper.GetTemplate). */
  datatype Template = Template(species: int, traits: seq<int>)

  /** The collaborators of the trade module, held fixed for one request.
      `getLegal` is GetLegal on the generation-8 trainer context. */
  datatype Engine = Engine(
    stripCodeBlock: string -> string,
    parseShowdown: string -> ShowdownSet,
    getTemplate: ShowdownSet -> Template,
    getLegal: Template -> PkmData,
    speciesNames: seq<string>,
    legal: PkmData -> bool,
    canBeTraded: PkmData -> bool,
    recomputedPartyStats: PkmData -> seq<int>)

  /** A generated entity, whose properties the trade module sets in place.
      Its runtime type never changes. */
  class Pkm {
    const format: Format
    var sid: int
    var tid: int
    var otName: string
    var partyStats: seq<int>
    var body: seq<int>

    /** The entity's current state, as a collaborator reads it. */
    function Data(): PkmData
      reads this
    {
      PkmData(format, sid, tid, otName, partyStats, body)
    }

    constructor (d: PkmData)
      ensures Data() == d
    {
      format := d.format;
      sid := d.sid;
      tid := d.tid;
      otName := d.otName;
      partyStats := d.partyStats;
      body := d.body;
    }

    /** ResetPartyStats: overwrites the party stats with the ones the
        collaborator computes from the current state; nothing else changes. */
    method ResetPartyStats(recompute: PkmData -> seq<int>)
      modifies this
      ensures Data() == old(Data()).(partyStats := recompute(old(Data())))
    {
      partyStats := recompute(Data());
    }
  }
}
